/** The derived indexes of a fragment list: where every retained run of
    identities starts and ends, which runs each deletion labels, and at which
    rank each run handle sits.

    `SetFragments` publishes them as a difference to the previous publication
    and falls back to a rebuild. Either way they say exactly what the fragments
    say, which is `Coherent`. */
module Indexes {
  import opened Ids
  import opened Fragments

  /** Zero is no run. */
  type RunId = n: nat | n < U64

  datatype Interval = Interval(end: nat, run: RunId)

  /** A deletion and the start of a run it labels. */
  datatype Incidence = Incidence(deletion: Identity, start: Identity)

  type Origins = map<Identity, Interval>

  type Deletions = map<Incidence, Interval>

  datatype RunIndex = RunIndex(
    origins: Origins,
    deletions: Deletions,
    directory: map<RunId, nat>,
    nextRun: RunId,
    valid: bool)

  function End(f: Fragment): nat {
    f.origin.counter + Length(f)
  }

  // ---- What the tables have to say ---------------------------------------

  /** Exactly one row for every run, under the run's handle. */
  ghost predicate OriginsMatch(frags: seq<Fragment>, runs: seq<RunId>, origins: Origins)
    requires |runs| == |frags|
  {
    && (forall i :: 0 <= i < |frags| ==>
          frags[i].origin in origins && origins[frags[i].origin] == Interval(End(frags[i]), runs[i]))
    && (forall s :: s in origins ==> StartsRun(frags, s))
  }

  ghost predicate StartsRun(frags: seq<Fragment>, s: Identity) {
    exists i :: 0 <= i < |frags| && frags[i].origin == s
  }

  /** Exactly one row for every deletion of every run. */
  ghost predicate DeletionsMatch(frags: seq<Fragment>, runs: seq<RunId>, deletions: Deletions)
    requires |runs| == |frags|
  {
    && (forall i, d :: 0 <= i < |frags| && d in frags[i].deletions ==>
          Incidence(d, frags[i].origin) in deletions
          && deletions[Incidence(d, frags[i].origin)] == Interval(End(frags[i]), runs[i]))
    && (forall k :: k in deletions ==> Labels(frags, k))
  }

  ghost predicate Labels(frags: seq<Fragment>, k: Incidence) {
    exists i :: 0 <= i < |frags| && frags[i].origin == k.start && k.deletion in frags[i].deletions
  }

  ghost predicate DirectoryMatches(runs: seq<RunId>, directory: map<RunId, nat>) {
    && (forall i :: 0 <= i < |runs| ==> runs[i] in directory && directory[runs[i]] == i)
    && (forall r :: r in directory ==> directory[r] < |runs| && runs[directory[r]] == r)
  }

  ghost predicate Handles(runs: seq<RunId>) {
    && (forall i :: 0 <= i < |runs| ==> runs[i] != 0)
    && (forall i, j :: 0 <= i < j < |runs| ==> runs[i] != runs[j])
  }

  /** Runs of one actor do not overlap. */
  predicate Separate(f: Fragment, g: Fragment) {
    f.origin.actor == g.origin.actor ==> End(f) <= g.origin.counter || End(g) <= f.origin.counter
  }

  ghost predicate Apart(frags: seq<Fragment>) {
    forall i, j :: 0 <= i < j < |frags| ==> Separate(frags[i], frags[j])
  }

  ghost predicate Listed(frags: seq<Fragment>, origins: Origins) {
    forall i :: 0 <= i < |frags| ==> frags[i].origin in origins
  }

  ghost function RunsOf(frags: seq<Fragment>, origins: Origins): (r: seq<RunId>)
    requires Listed(frags, origins)
    ensures |r| == |frags|
  {
    seq(|frags|, i requires 0 <= i < |frags| => origins[frags[i].origin].run)
  }

  /** The index of a list of fragments, up to the naming of runs. */
  ghost predicate Coherent(frags: seq<Fragment>, index: RunIndex) {
    && Listed(frags, index.origins)
    && CoherentAs(frags, RunsOf(frags, index.origins), index)
  }

  ghost predicate CoherentAs(frags: seq<Fragment>, runs: seq<RunId>, index: RunIndex)
    requires |runs| == |frags|
  {
    && OriginsMatch(frags, runs, index.origins)
    && DeletionsMatch(frags, runs, index.deletions)
    && DirectoryMatches(runs, index.directory)
    && Handles(runs) && Apart(frags) && NonEmptyRuns(frags) && Clean(frags)
    && (index.nextRun != 0 ==> forall i :: 0 <= i < |runs| ==> runs[i] < index.nextRun)
  }

  /** No deletion is recorded twice on a run. */
  ghost predicate Clean(frags: seq<Fragment>) {
    forall i :: 0 <= i < |frags| ==> NoRepeats(frags[i].deletions)
  }

  /** The indexes are coherent, and kept, as long as there are run handles. */
  ghost predicate IndexKept(frags: seq<Fragment>, index: RunIndex) {
    && (index.valid ==> Coherent(frags, index))
    && (index.nextRun != 0 ==> index.valid)
  }

  /** What a rebuild accepts: usable identities, runs apart, and no deletion
      recorded twice on a run. */
  ghost predicate Indexable(frags: seq<Fragment>) {
    Apart(frags) && forall i :: 0 <= i < |frags| ==> RunUsable(frags[i])
  }

  predicate RunUsable(f: Fragment) {
    && Length(f) > 0 && Usable(f.origin) && NoRepeats(f.deletions)
    && forall j :: 0 <= j < |f.deletions| ==> Usable(f.deletions[j])
  }

  predicate NoRepeats(ids: seq<Identity>) {
    forall i, j :: 0 <= i < j < |ids| ==> ids[i] != ids[j]
  }

  /** Every row of `a` is in `b`: same interval, same rank. */
  ghost predicate RowsIn(a: RunIndex, b: RunIndex) {
    && (forall s :: s in a.origins ==> s in b.origins && a.origins[s].end == b.origins[s].end && SameRank(a, b, s))
    && (forall k :: k in a.deletions ==> k in b.deletions && a.deletions[k].end == b.deletions[k].end)
  }

  ghost predicate SameRank(a: RunIndex, b: RunIndex, s: Identity)
    requires s in a.origins && s in b.origins
  {
    && a.origins[s].run in a.directory && b.origins[s].run in b.directory
    && a.directory[a.origins[s].run] == b.directory[b.origins[s].run]
  }

  /** Two coherent indexes of the same fragments differ in the names of runs
      only: same rows, same intervals, same ranks. */
  lemma CoherentIsUnique(frags: seq<Fragment>, a: RunIndex, b: RunIndex)
    requires Coherent(frags, a) && Coherent(frags, b)
    ensures RowsIn(a, b) && RowsIn(b, a)
  {
    RowsAreIn(frags, a, b);
    RowsAreIn(frags, b, a);
  }

  lemma RowsAreIn(frags: seq<Fragment>, a: RunIndex, b: RunIndex)
    requires Coherent(frags, a) && Coherent(frags, b)
    ensures RowsIn(a, b)
  {
    var ra, rb := RunsOf(frags, a.origins), RunsOf(frags, b.origins);
    forall s | s in a.origins
      ensures s in b.origins && a.origins[s].end == b.origins[s].end && SameRank(a, b, s)
    {
      assert StartsRun(frags, s);
      var i :| 0 <= i < |frags| && frags[i].origin == s;
      assert a.directory[ra[i]] == i && b.directory[rb[i]] == i;
    }
    forall k | k in a.deletions
      ensures k in b.deletions && a.deletions[k].end == b.deletions[k].end
    {
      assert Labels(frags, k);
      var i :| 0 <= i < |frags| && frags[i].origin == k.start && k.deletion in frags[i].deletions;
      assert k == Incidence(k.deletion, frags[i].origin);
    }
  }

  // ---- Single rows -------------------------------------------------------

  /** An interval the origin index takes: usable, unused and apart from the
      intervals already there. */
  predicate CanInsert(origins: Origins, s: Identity, v: Interval) {
    && Usable(s) && s.counter < v.end && v.run != 0 && s !in origins
    && forall t :: t in origins && t.actor == s.actor ==> origins[t].end <= s.counter || v.end <= t.counter
  }

  predicate CanLabel(deletions: Deletions, k: Incidence, v: Interval) {
    && Usable(k.deletion) && Usable(k.start) && k.start.counter < v.end && v.run != 0 && k !in deletions
    && forall l :: l in deletions && l.deletion == k.deletion && l.start.actor == k.start.actor ==>
         deletions[l].end <= k.start.counter || v.end <= l.start.counter
  }

  ghost predicate RowsApart(origins: Origins) {
    forall s, t :: s in origins && t in origins && s != t && s.actor == t.actor ==>
      origins[s].end <= t.counter || origins[t].end <= s.counter
  }

  ghost predicate RowsNonEmpty(origins: Origins) {
    forall s :: s in origins ==> s.counter < origins[s].end
  }

  /** Remove the rows of one run's deletions; fails on a missing row. */
  method EraseLabels(deletions: Deletions, f: Fragment) returns (ok: bool, r: Deletions)
    ensures ok ==> r == map k | k in deletions && !(k.start == f.origin && k.deletion in f.deletions) :: deletions[k]
  {
    r := deletions;
    for j := 0 to |f.deletions|
      invariant r == map k | k in deletions && !(k.start == f.origin && k.deletion in f.deletions[..j]) :: deletions[k]
    {
      var key := Incidence(f.deletions[j], f.origin);
      if key !in r { return false, r; }
      assert f.deletions[..j + 1] == f.deletions[..j] + [f.deletions[j]];
      r := r - {key};
    }
    assert f.deletions[..|f.deletions|] == f.deletions;
    ok := true;
  }

  /** `to` is `from` plus the rows of one run's deletions, none of them there before. */
  ghost predicate LabelsPut(from: Deletions, to: Deletions, f: Fragment, run: RunId) {
    && (forall k :: k in to <==> k in from || LabelOf(f, k))
    && (forall k :: k in to ==> to[k] == if LabelOf(f, k) then Interval(End(f), run) else from[k])
    && (forall k :: k in from ==> !LabelOf(f, k))
    && NoRepeats(f.deletions)
  }

  ghost predicate LabelOf(f: Fragment, k: Incidence) {
    k.start == f.origin && k.deletion in f.deletions
  }

  /** No deletion repeats, and the run is apart from all labelled ones. */
  ghost predicate LabelsFit(deletions: Deletions, f: Fragment, run: RunId) {
    && RunUsable(f) && run != 0
    && (forall l :: l in deletions && l.start.actor == f.origin.actor ==>
          l.start != f.origin && (deletions[l].end <= f.origin.counter || End(f) <= l.start.counter))
  }

  /** Add the rows of one run's deletions; fails on a row that does not fit. */
  method InsertLabels(deletions: Deletions, f: Fragment, run: RunId) returns (ok: bool, r: Deletions)
    ensures ok ==> LabelsPut(deletions, r, f, run)
    ensures LabelsFit(deletions, f, run) ==> ok
  {
    r := deletions;
    for j := 0 to |f.deletions|
      invariant forall k :: k in r <==> k in deletions || (k.start == f.origin && k.deletion in f.deletions[..j])
      invariant forall k :: k in r ==>
                  r[k] == if k.start == f.origin && k.deletion in f.deletions[..j]
                          then Interval(End(f), run) else deletions[k]
      invariant forall k :: k in deletions ==> !(k.start == f.origin && k.deletion in f.deletions[..j])
      invariant NoRepeats(f.deletions[..j])
    {
      var key := Incidence(f.deletions[j], f.origin);
      assert f.deletions[..j + 1] == f.deletions[..j] + [f.deletions[j]];
      if !CanLabel(r, key, Interval(End(f), run)) {
        assert NoRepeats(f.deletions) ==> key.deletion !in f.deletions[..j];
        assert !LabelsFit(deletions, f, run);
        return false, r;
      }
      r := r[key := Interval(End(f), run)];
    }
    assert f.deletions[..|f.deletions|] == f.deletions;
    ok := true;
  }

  // ---- Publication -------------------------------------------------------

  /** Every published run has its own handle, below the next one to be given. */
  ghost predicate HandlesUnique(index: RunIndex) {
    && (forall s :: s in index.origins ==> index.origins[s].run != 0)
    && (forall s, t :: s in index.origins && t in index.origins && s != t ==>
          index.origins[s].run != index.origins[t].run)
    && (index.nextRun != 0 ==> forall s :: s in index.origins ==> index.origins[s].run < index.nextRun)
  }

  lemma CoherentHandles(frags: seq<Fragment>, index: RunIndex)
    requires Coherent(frags, index)
    ensures HandlesUnique(index)
  {
    var runs := RunsOf(frags, index.origins);
    forall s | s in index.origins
      ensures exists i :: 0 <= i < |frags| && frags[i].origin == s && index.origins[s].run == runs[i]
    {
      assert StartsRun(frags, s);
    }
  }

  /** Handle 2^64 - 1 is the last one; after it none is left. */
  function NextRun(run: RunId): RunId {
    if run == U64 - 1 then 0 else run + 1
  }

  /** The handle `f` keeps because a run already started where it starts. */
  function PriorRun(index: RunIndex, f: Fragment): RunId {
    if index.valid && f.origin in index.origins then index.origins[f.origin].run else 0
  }

  ghost predicate StartsDiffer(frags: seq<Fragment>) {
    forall i, j :: 0 <= i < j < |frags| ==> frags[i].origin != frags[j].origin
  }

  /** There are handles enough, even if every run needed a new one. */
  predicate HandlesLeft(index: RunIndex, n: nat) {
    index.nextRun != 0 && index.nextRun + n < U64
  }

  /** A publication that takes no more than `n` handles, if there are as many. */
  ghost predicate Spends(index: RunIndex, n: nat, index': RunIndex) {
    HandlesLeft(index, n) ==> 0 < index'.nextRun <= index.nextRun + n
  }

  lemma {:induction false} SpendsLess(index: RunIndex, n: nat, index': RunIndex)
    requires Spends(index, n, index')
    ensures forall m: nat :: n <= m ==> Spends(index, m, index')
  {
  }

  /** What handing out handles keeps, as long as it succeeds. */
  ghost predicate Assigned(frags: seq<Fragment>, index: RunIndex, runs: seq<RunId>, byRun: map<RunId, nat>, next: RunId)
    requires |runs| <= |frags|
  {
    && DirectoryMatches(runs, byRun)
    && (forall j :: 0 <= j < |runs| ==> runs[j] != 0)
    && (forall j :: 0 <= j < |runs| && PriorRun(index, frags[j]) != 0 ==> runs[j] == PriorRun(index, frags[j]))
    && (forall j :: 0 <= j < |runs| && PriorRun(index, frags[j]) == 0 ==> runs[j] >= index.nextRun)
    && (next != 0 ==> index.nextRun != 0 && index.nextRun <= next && forall j :: 0 <= j < |runs| ==> runs[j] < next)
  }

  /** The next handle is not in use yet. */
  lemma HandleIsFree(frags: seq<Fragment>, index: RunIndex, runs: seq<RunId>, byRun: map<RunId, nat>, next: RunId)
    requires index.valid ==> HandlesUnique(index)
    requires |runs| < |frags| && StartsDiffer(frags) && Assigned(frags, index, runs, byRun, next) && next != 0
    ensures (if PriorRun(index, frags[|runs|]) != 0 then PriorRun(index, frags[|runs|]) else next) !in byRun
  {
  }

  /** A run that starts where one started keeps its handle, others get new ones. */
  method AssignRuns(frags: seq<Fragment>, index: RunIndex)
    returns (ok: bool, runs: seq<RunId>, byRun: map<RunId, nat>, next: RunId)
    requires index.valid ==> HandlesUnique(index)
    ensures |runs| == |frags|
    ensures ok ==> Assigned(frags, index, runs, byRun, next) && Handles(runs)
    ensures HandlesLeft(index, |frags|) ==> 0 < next <= index.nextRun + |frags|
    ensures StartsDiffer(frags) && next != 0 ==> ok
    ensures index.nextRun == 0 ==> next == 0
  {
    ok, runs, byRun, next := true, [], map[], index.nextRun;
    for i := 0 to |frags|
      invariant |runs| == i
      invariant ok ==> Assigned(frags, index, runs, byRun, next)
      invariant HandlesLeft(index, |frags|) ==> next != 0 && next <= index.nextRun + i
      invariant StartsDiffer(frags) && next != 0 ==> ok
      invariant index.nextRun == 0 ==> next == 0
    {
      if ok && StartsDiffer(frags) && next != 0 { HandleIsFree(frags, index, runs, byRun, next); }
      var run := PriorRun(index, frags[i]);
      if run == 0 {
        if next == 0 {
          ok := false;
        } else {
          run := next;
          next := NextRun(next);
        }
      }
      runs := runs + [run];
      if run != 0 {
        if run in byRun {
          ok := false;
        } else {
          byRun := byRun[run := i];
        }
      }
    }
  }

  /** The old run is still there with the same extent and deletions. */
  predicate Unchanged(f: Fragment, index: RunIndex, frags: seq<Fragment>, byRun: map<RunId, nat>)
    requires f.origin in index.origins
  {
    var run := index.origins[f.origin].run;
    && run in byRun && byRun[run] < |frags|
    && frags[byRun[run]].origin == f.origin
    && Length(frags[byRun[run]]) == Length(f)
    && frags[byRun[run]].deletions == f.deletions
  }

  /** Starts of the old runs, among the first `n`, that changed or went away. */
  ghost function Gone(was: seq<Fragment>, n: nat, index: RunIndex, frags: seq<Fragment>, byRun: map<RunId, nat>): set<Identity>
    requires n <= |was| && Listed(was, index.origins)
  {
    set j | 0 <= j < n && !Unchanged(was[j], index, frags, byRun) :: was[j].origin
  }

  function LabelsWithout(deletions: Deletions, gone: set<Identity>): Deletions {
    map k | k in deletions && k.start !in gone :: deletions[k]
  }

  /** A run's rows, and only they, are under its own start. */
  ghost predicate OwnLabels(f: Fragment, deletions: Deletions) {
    forall k :: k in deletions && k.start == f.origin ==> k.deletion in f.deletions
  }

  ghost predicate LabelsOwned(was: seq<Fragment>, deletions: Deletions) {
    forall i :: 0 <= i < |was| ==> OwnLabels(was[i], deletions)
  }

  /** First half of a delta: drop the rows of runs that changed or went away. */
  method EraseChanged(was: seq<Fragment>, index: RunIndex, frags: seq<Fragment>, byRun: map<RunId, nat>)
    returns (ok: bool, origins: Origins, deletions: Deletions, changed: set<RunId>)
    requires Listed(was, index.origins) && LabelsOwned(was, index.deletions)
    ensures ok ==> origins == index.origins - Gone(was, |was|, index, frags, byRun)
    ensures ok ==> deletions == LabelsWithout(index.deletions, Gone(was, |was|, index, frags, byRun))
    ensures ok ==> forall s :: s in Gone(was, |was|, index, frags, byRun) && s in index.origins && index.origins[s].run in byRun ==>
                     index.origins[s].run in changed
  {
    origins, deletions, changed := index.origins, index.deletions, {};
    ghost var gone: set<Identity> := {};
    assert deletions == LabelsWithout(index.deletions, gone);
    for i := 0 to |was|
      invariant gone == Gone(was, i, index, frags, byRun)
      invariant origins == index.origins - gone
      invariant deletions == LabelsWithout(index.deletions, gone)
      invariant forall s :: s in gone && s in index.origins && index.origins[s].run in byRun ==> index.origins[s].run in changed
    {
      var f := was[i];
      if !Unchanged(f, index, frags, byRun) {
        if f.origin !in origins { return false, origins, deletions, changed; }
        var erased, rest := EraseLabels(deletions, f);
        if !erased { return false, origins, deletions, changed; }
        ErasedLabels(f, index.deletions, gone);
        origins, deletions := origins - {f.origin}, rest;
        if index.origins[f.origin].run in byRun {
          changed := changed + {index.origins[f.origin].run};
        }
        gone := gone + {f.origin};
      }
    }
    ok := true;
  }

  lemma ErasedLabels(f: Fragment, deletions: Deletions, gone: set<Identity>)
    requires OwnLabels(f, deletions)
    ensures var d := LabelsWithout(deletions, gone);
            (map k | k in d && !(k.start == f.origin && k.deletion in f.deletions) :: d[k])
            == LabelsWithout(deletions, gone + {f.origin})
  {
  }

  lemma CoherentStarts(was: seq<Fragment>, index: RunIndex)
    requires Coherent(was, index)
    ensures Listed(was, index.origins) && StartsDiffer(was) && LabelsOwned(was, index.deletions)
  {
    var runs := RunsOf(was, index.origins);
    assert forall i, j :: 0 <= i < j < |was| ==> runs[i] != runs[j];
    forall i, k | 0 <= i < |was| && k in index.deletions && k.start == was[i].origin
      ensures k.deletion in was[i].deletions
    {
      assert Labels(was, k);
      var j :| 0 <= j < |was| && was[j].origin == k.start && k.deletion in was[j].deletions;
      assert runs[j] == runs[i];
    }
  }

  /** The run's rows are already in the table a delta starts from. */
  predicate Skipped(f: Fragment, run: RunId, prior: Origins, changed: set<RunId>) {
    f.origin in prior && run !in changed
  }

  datatype Entry = Entry(frag: Fragment, run: RunId) {
    function Row(): Interval { Interval(End(frag), run) }
  }

  /** The runs, among the first `n`, whose rows have to be added. */
  ghost function Todo(frags: seq<Fragment>, runs: seq<RunId>, n: nat, prior: Origins, changed: set<RunId>): seq<Entry>
    requires n <= |frags| == |runs|
  {
    if n == 0 then []
    else if Skipped(frags[n - 1], runs[n - 1], prior, changed) then Todo(frags, runs, n - 1, prior, changed)
    else Todo(frags, runs, n - 1, prior, changed) + [Entry(frags[n - 1], runs[n - 1])]
  }

  lemma {:induction false} TodoHas(frags: seq<Fragment>, runs: seq<RunId>, n: nat, prior: Origins, changed: set<RunId>)
    requires n <= |frags| == |runs|
    ensures forall j :: 0 <= j < n && !Skipped(frags[j], runs[j], prior, changed) ==>
              Entry(frags[j], runs[j]) in Todo(frags, runs, n, prior, changed)
    ensures forall e :: e in Todo(frags, runs, n, prior, changed) ==>
              exists j :: 0 <= j < n && e == Entry(frags[j], runs[j]) && !Skipped(frags[j], runs[j], prior, changed)
  {
    if n > 0 {
      TodoHas(frags, runs, n - 1, prior, changed);
    }
  }

  /** `to` is `from` plus one row for every entry. */
  ghost predicate RowsAdded(from: Origins, to: Origins, todo: seq<Entry>) {
    && (forall s :: s in from ==> s in to && to[s] == from[s])
    && (forall e :: e in todo ==> e.frag.origin in to && to[e.frag.origin] == e.Row())
    && (forall s :: s in to && s !in from ==> exists e :: e in todo && e.frag.origin == s)
  }

  ghost predicate LabelsAdded(from: Deletions, to: Deletions, todo: seq<Entry>) {
    && (forall k :: k in from ==> k in to && to[k] == from[k])
    && (forall e, k :: e in todo && LabelOf(e.frag, k) ==> k in to && to[k] == e.Row())
    && (forall k :: k in to && k !in from ==> exists e :: e in todo && LabelOf(e.frag, k))
    && (forall e :: e in todo ==> NoRepeats(e.frag.deletions))
  }

  /** Second half of a delta, and the whole of a rebuild: add the rows of the
      runs that are new or changed. Stops at a row that does not fit. */
  method InsertRows(origins: Origins, deletions: Deletions, frags: seq<Fragment>, runs: seq<RunId>,
                    prior: Origins, changed: set<RunId>)
    returns (ok: bool, o: Origins, d: Deletions)
    requires |runs| == |frags| && RowsApart(origins)
    ensures ok ==> RowsApart(o) && RowsAdded(origins, o, Todo(frags, runs, |frags|, prior, changed))
    ensures ok ==> LabelsAdded(deletions, d, Todo(frags, runs, |frags|, prior, changed))
    ensures origins == map[] && deletions == map[] && Indexable(frags) && Handles(runs) ==> ok
  {
    o, d := origins, deletions;
    for i := 0 to |frags|
      invariant RowsApart(o) && RowsAdded(origins, o, Todo(frags, runs, i, prior, changed))
      invariant LabelsAdded(deletions, d, Todo(frags, runs, i, prior, changed))
    {
      if !Skipped(frags[i], runs[i], prior, changed) {
        EntryFits(origins, o, deletions, d, frags, runs, i, prior, changed);
        var added, o', d' := InsertRow(origins, o, deletions, d, Todo(frags, runs, i, prior, changed), Entry(frags[i], runs[i]));
        if !added { return false, o, d; }
        o, d := o', d';
      }
    }
    ok := true;
  }

  method InsertRow(ghost from: Origins, o: Origins, ghost labels: Deletions, d: Deletions, ghost todo: seq<Entry>, e: Entry)
    returns (ok: bool, o': Origins, d': Deletions)
    requires RowsApart(o) && RowsAdded(from, o, todo) && LabelsAdded(labels, d, todo)
    ensures ok ==> RowsApart(o') && RowsAdded(from, o', todo + [e]) && LabelsAdded(labels, d', todo + [e])
    ensures CanInsert(o, e.frag.origin, e.Row()) && LabelsFit(d, e.frag, e.run) ==> ok
  {
    o', d' := o, d;
    if !CanInsert(o, e.frag.origin, e.Row()) { return false, o, d; }
    ok, d' := InsertLabels(d, e.frag, e.run);
    if !ok { return false, o, d; }
    RowsStep(from, o, todo, e);
    LabelsStep(labels, d, d', todo, e);
    o' := o[e.frag.origin := e.Row()];
  }

  lemma EntryFits(origins: Origins, o: Origins, deletions: Deletions, d: Deletions,
                  frags: seq<Fragment>, runs: seq<RunId>, i: nat, prior: Origins, changed: set<RunId>)
    requires i < |frags| == |runs|
    requires RowsAdded(origins, o, Todo(frags, runs, i, prior, changed))
    requires LabelsAdded(deletions, d, Todo(frags, runs, i, prior, changed))
    ensures origins == map[] && deletions == map[] && Indexable(frags) && Handles(runs) ==>
              CanInsert(o, frags[i].origin, Interval(End(frags[i]), runs[i])) && LabelsFit(d, frags[i], runs[i])
  {
    TodoHas(frags, runs, i, prior, changed);
    if origins == map[] && deletions == map[] && Indexable(frags) && Handles(runs) {
      var todo, e := Todo(frags, runs, i, prior, changed), Entry(frags[i], runs[i]);
      forall x | x in todo
        ensures Separate(x.frag, e.frag) && Length(x.frag) > 0
      {
        var j :| 0 <= j < i && x == Entry(frags[j], runs[j]);
      }
      RowFits(o, todo, e);
      LabelsDoFit(d, todo, e);
    }
  }

  lemma RowFits(o: Origins, todo: seq<Entry>, e: Entry)
    requires RunUsable(e.frag) && e.run != 0 && RowsAdded(map[], o, todo)
    requires forall x :: x in todo ==> Separate(x.frag, e.frag) && Length(x.frag) > 0
    ensures CanInsert(o, e.frag.origin, e.Row())
  {
    forall s | s in o && s.actor == e.frag.origin.actor
      ensures s != e.frag.origin && (o[s].end <= e.frag.origin.counter || End(e.frag) <= s.counter)
    {
      var x :| x in todo && x.frag.origin == s;
    }
  }

  lemma LabelsDoFit(d: Deletions, todo: seq<Entry>, e: Entry)
    requires RunUsable(e.frag) && e.run != 0 && LabelsAdded(map[], d, todo)
    requires forall x :: x in todo ==> Separate(x.frag, e.frag) && Length(x.frag) > 0
    ensures LabelsFit(d, e.frag, e.run)
  {
    forall k | k in d && k.start.actor == e.frag.origin.actor
      ensures k.start != e.frag.origin && (d[k].end <= e.frag.origin.counter || End(e.frag) <= k.start.counter)
    {
      var x :| x in todo && LabelOf(x.frag, k);
    }
  }

  lemma RowsStep(from: Origins, o: Origins, todo: seq<Entry>, e: Entry)
    requires RowsApart(o) && RowsAdded(from, o, todo) && CanInsert(o, e.frag.origin, e.Row())
    ensures RowsApart(o[e.frag.origin := e.Row()])
    ensures RowsAdded(from, o[e.frag.origin := e.Row()], todo + [e])
  {
    var o' := o[e.frag.origin := e.Row()];
    forall s | s in o' && s !in from
      ensures exists x :: x in todo + [e] && x.frag.origin == s
    {
      if s in o {
        var x :| x in todo && x.frag.origin == s;
        assert x in todo + [e];
      } else {
        assert e in todo + [e];
      }
    }
  }

  lemma LabelsStep(from: Deletions, d: Deletions, d': Deletions, todo: seq<Entry>, e: Entry)
    requires LabelsAdded(from, d, todo) && LabelsPut(d, d', e.frag, e.run)
    ensures LabelsAdded(from, d', todo + [e])
  {
    forall k | k in d' && k !in from
      ensures exists x :: x in todo + [e] && LabelOf(x.frag, k)
    {
      if k in d {
        var x :| x in todo && LabelOf(x.frag, k);
        assert x in todo + [e];
      } else {
        assert e in todo + [e];
      }
    }
  }

  /** A row the delta keeps belongs to a run that is there unchanged. */
  lemma KeptRun(was: seq<Fragment>, index: RunIndex, frags: seq<Fragment>, byRun: map<RunId, nat>, s: Identity)
    returns (f: Fragment, i: nat)
    requires Coherent(was, index) && s in index.origins && s !in Gone(was, |was|, index, frags, byRun)
    ensures f in was && f.origin == s && index.origins[s] == Interval(End(f), index.origins[s].run)
    ensures index.origins[s].run in byRun && i == byRun[index.origins[s].run] && i < |frags|
    ensures frags[i].origin == s && Length(frags[i]) == Length(f) && frags[i].deletions == f.deletions
  {
    assert StartsRun(was, s);
    var m :| 0 <= m < |was| && was[m].origin == s;
    f := was[m];
    assert Unchanged(f, index, frags, byRun);
    i := byRun[index.origins[s].run];
  }

  /** What the delta has established when its two halves succeeded. */
  ghost predicate DeltaDone(was: seq<Fragment>, index: RunIndex, frags: seq<Fragment>, runs: seq<RunId>, byRun: map<RunId, nat>,
                            changed: set<RunId>, o: Origins, d: Deletions)
    requires |runs| == |frags| && Coherent(was, index)
  {
    var gone, todo := Gone(was, |was|, index, frags, byRun), Todo(frags, runs, |frags|, index.origins, changed);
    && (forall s :: s in gone && s in index.origins && index.origins[s].run in byRun ==> index.origins[s].run in changed)
    && RowsAdded(index.origins - gone, o, todo)
    && LabelsAdded(LabelsWithout(index.deletions, gone), d, todo)
  }

  /** Runs keep the handles of the runs that started where they start. */
  ghost predicate HandlesKept(index: RunIndex, frags: seq<Fragment>, runs: seq<RunId>)
    requires |runs| == |frags|
  {
    forall i :: 0 <= i < |frags| && frags[i].origin in index.origins ==> runs[i] == index.origins[frags[i].origin].run
  }

  lemma DeltaOrigins(was: seq<Fragment>, index: RunIndex, frags: seq<Fragment>, runs: seq<RunId>, byRun: map<RunId, nat>,
                     changed: set<RunId>, o: Origins, d: Deletions)
    requires Coherent(was, index) && |runs| == |frags| && DirectoryMatches(runs, byRun) && HandlesKept(index, frags, runs)
    requires DeltaDone(was, index, frags, runs, byRun, changed, o, d)
    ensures OriginsMatch(frags, runs, o)
  {
    var gone := Gone(was, |was|, index, frags, byRun);
    TodoHas(frags, runs, |frags|, index.origins, changed);
    forall i | 0 <= i < |frags|
      ensures frags[i].origin in o && o[frags[i].origin] == Interval(End(frags[i]), runs[i])
    {
      var s := frags[i].origin;
      if Skipped(frags[i], runs[i], index.origins, changed) {
        var f := SkippedRun(was, index, frags, runs, byRun, changed, o, d, i);
      } else {
        assert Entry(frags[i], runs[i]).frag.origin in o;
      }
    }
    forall s | s in o
      ensures StartsRun(frags, s)
    {
      if s in index.origins - gone {
        var f, k := KeptRun(was, index, frags, byRun, s);
      }
    }
  }

  lemma DeltaLabels(was: seq<Fragment>, index: RunIndex, frags: seq<Fragment>, runs: seq<RunId>, byRun: map<RunId, nat>,
                    changed: set<RunId>, o: Origins, d: Deletions)
    requires Coherent(was, index) && |runs| == |frags| && DirectoryMatches(runs, byRun) && HandlesKept(index, frags, runs)
    requires DeltaDone(was, index, frags, runs, byRun, changed, o, d)
    ensures DeletionsMatch(frags, runs, d)
  {
    var gone := Gone(was, |was|, index, frags, byRun);
    TodoHas(frags, runs, |frags|, index.origins, changed);
    forall i, x | 0 <= i < |frags| && x in frags[i].deletions
      ensures Incidence(x, frags[i].origin) in d && d[Incidence(x, frags[i].origin)] == Interval(End(frags[i]), runs[i])
    {
      DeltaLabel(was, index, frags, runs, byRun, changed, o, d, i, x);
    }
    forall k | k in d
      ensures Labels(frags, k)
    {
      DeltaLabelled(was, index, frags, runs, byRun, changed, o, d, k);
    }
  }

  lemma DeltaLabel(was: seq<Fragment>, index: RunIndex, frags: seq<Fragment>, runs: seq<RunId>, byRun: map<RunId, nat>,
                   changed: set<RunId>, o: Origins, d: Deletions, i: nat, x: Identity)
    requires Coherent(was, index) && |runs| == |frags| && DirectoryMatches(runs, byRun) && HandlesKept(index, frags, runs)
    requires DeltaDone(was, index, frags, runs, byRun, changed, o, d)
    requires i < |frags| && x in frags[i].deletions
    ensures Incidence(x, frags[i].origin) in d && d[Incidence(x, frags[i].origin)] == Interval(End(frags[i]), runs[i])
  {
    var todo := Todo(frags, runs, |frags|, index.origins, changed);
    if Skipped(frags[i], runs[i], index.origins, changed) {
      var f := SkippedRun(was, index, frags, runs, byRun, changed, o, d, i);
      KeptLabel(was, index, f, x);
    } else {
      TodoHas(frags, runs, |frags|, index.origins, changed);
      LabelAdded(LabelsWithout(index.deletions, Gone(was, |was|, index, frags, byRun)), d, todo, Entry(frags[i], runs[i]), x);
    }
  }

  /** A run the delta skips had the very same row. */
  lemma SkippedRun(was: seq<Fragment>, index: RunIndex, frags: seq<Fragment>, runs: seq<RunId>, byRun: map<RunId, nat>,
                   changed: set<RunId>, o: Origins, d: Deletions, i: nat) returns (f: Fragment)
    requires Coherent(was, index) && |runs| == |frags| && DirectoryMatches(runs, byRun) && HandlesKept(index, frags, runs)
    requires DeltaDone(was, index, frags, runs, byRun, changed, o, d)
    requires i < |frags| && Skipped(frags[i], runs[i], index.origins, changed)
    ensures f in was && f.origin == frags[i].origin && f.deletions == frags[i].deletions
    ensures frags[i].origin !in Gone(was, |was|, index, frags, byRun)
    ensures index.origins[frags[i].origin] == Interval(End(frags[i]), runs[i])
  {
    var at;
    assert frags[i].origin !in Gone(was, |was|, index, frags, byRun);
    f, at := KeptRun(was, index, frags, byRun, frags[i].origin);
  }

  lemma DeltaLabelled(was: seq<Fragment>, index: RunIndex, frags: seq<Fragment>, runs: seq<RunId>, byRun: map<RunId, nat>,
                      changed: set<RunId>, o: Origins, d: Deletions, k: Incidence)
    requires Coherent(was, index) && |runs| == |frags|
    requires DeltaDone(was, index, frags, runs, byRun, changed, o, d) && k in d
    ensures Labels(frags, k)
  {
    var gone, todo := Gone(was, |was|, index, frags, byRun), Todo(frags, runs, |frags|, index.origins, changed);
    if k in LabelsWithout(index.deletions, gone) {
      var m := LabelledRun(was, index, k);
      var f, i := KeptRun(was, index, frags, byRun, k.start);
      CoherentStarts(was, index);
    } else {
      TodoHas(frags, runs, |frags|, index.origins, changed);
      var e :| e in todo && LabelOf(e.frag, k);
    }
  }

  lemma KeptLabel(was: seq<Fragment>, index: RunIndex, f: Fragment, x: Identity)
    requires Coherent(was, index) && f in was && x in f.deletions
    ensures f.origin in index.origins && Incidence(x, f.origin) in index.deletions
    ensures index.deletions[Incidence(x, f.origin)] == index.origins[f.origin]
  {
    var m :| 0 <= m < |was| && was[m] == f;
    assert x in was[m].deletions;
  }

  lemma LabelledRun(was: seq<Fragment>, index: RunIndex, k: Incidence) returns (f: Fragment)
    requires Coherent(was, index) && k in index.deletions
    ensures f in was && f.origin == k.start && k.deletion in f.deletions && k.start in index.origins
  {
    assert Labels(was, k);
    var i :| 0 <= i < |was| && was[i].origin == k.start && k.deletion in was[i].deletions;
    f := was[i];
  }

  lemma RebuiltOrigins(frags: seq<Fragment>, runs: seq<RunId>, o: Origins)
    requires |runs| == |frags| && RowsAdded(map[], o, Todo(frags, runs, |frags|, map[], {}))
    ensures OriginsMatch(frags, runs, o)
  {
    TodoHas(frags, runs, |frags|, map[], {});
    forall i | 0 <= i < |frags|
      ensures frags[i].origin in o && o[frags[i].origin] == Interval(End(frags[i]), runs[i])
    {
      assert Entry(frags[i], runs[i]) in Todo(frags, runs, |frags|, map[], {});
    }
  }

  lemma RebuiltLabels(frags: seq<Fragment>, runs: seq<RunId>, d: Deletions)
    requires |runs| == |frags| && LabelsAdded(map[], d, Todo(frags, runs, |frags|, map[], {}))
    ensures DeletionsMatch(frags, runs, d)
  {
    var todo := Todo(frags, runs, |frags|, map[], {});
    TodoHas(frags, runs, |frags|, map[], {});
    forall i, x | 0 <= i < |frags| && x in frags[i].deletions
      ensures Incidence(x, frags[i].origin) in d && d[Incidence(x, frags[i].origin)] == Interval(End(frags[i]), runs[i])
    {
      LabelAdded(map[], d, todo, Entry(frags[i], runs[i]), x);
    }
    forall k | k in d
      ensures Labels(frags, k)
    {
      var e :| e in todo && LabelOf(e.frag, k);
    }
  }

  lemma RebuiltClean(frags: seq<Fragment>, runs: seq<RunId>, d: Deletions)
    requires |runs| == |frags| && LabelsAdded(map[], d, Todo(frags, runs, |frags|, map[], {}))
    ensures Clean(frags)
  {
    hide NoRepeats;
    TodoHas(frags, runs, |frags|, map[], {});
    forall i | 0 <= i < |frags|
      ensures NoRepeats(frags[i].deletions)
    {
      assert Entry(frags[i], runs[i]) in Todo(frags, runs, |frags|, map[], {});
    }
  }

  lemma DeltaClean(was: seq<Fragment>, index: RunIndex, frags: seq<Fragment>, runs: seq<RunId>, byRun: map<RunId, nat>,
                   changed: set<RunId>, o: Origins, d: Deletions)
    requires Coherent(was, index) && |runs| == |frags| && DirectoryMatches(runs, byRun) && HandlesKept(index, frags, runs)
    requires DeltaDone(was, index, frags, runs, byRun, changed, o, d)
    ensures Clean(frags)
  {
    hide NoRepeats;
    TodoHas(frags, runs, |frags|, index.origins, changed);
    forall i | 0 <= i < |frags|
      ensures NoRepeats(frags[i].deletions)
    {
      if Skipped(frags[i], runs[i], index.origins, changed) {
        var f := SkippedRun(was, index, frags, runs, byRun, changed, o, d, i);
        CleanRun(was, index, f);
      } else {
        assert Entry(frags[i], runs[i]).frag == frags[i];
      }
    }
  }

  lemma CleanRun(was: seq<Fragment>, index: RunIndex, f: Fragment)
    requires Coherent(was, index) && f in was
    ensures NoRepeats(f.deletions)
  {
  }

  lemma LabelAdded(from: Deletions, d: Deletions, todo: seq<Entry>, e: Entry, x: Identity)
    requires LabelsAdded(from, d, todo) && e in todo && x in e.frag.deletions
    ensures Incidence(x, e.frag.origin) in d && d[Incidence(x, e.frag.origin)] == e.Row()
  {
    assert LabelOf(e.frag, Incidence(x, e.frag.origin));
  }

  /** Ranks of the run handles; fails on a run without a row or a shared handle. */
  method BuildDirectory(frags: seq<Fragment>, origins: Origins) returns (ok: bool, directory: map<RunId, nat>)
    ensures ok ==> Listed(frags, origins) && DirectoryMatches(RunsOf(frags, origins), directory)
    ensures Listed(frags, origins) && Handles(RunsOf(frags, origins)) ==> ok
  {
    directory := map[];
    for i := 0 to |frags|
      invariant forall j :: 0 <= j < i ==> frags[j].origin in origins
      invariant forall j :: 0 <= j < i ==> origins[frags[j].origin].run in directory && directory[origins[frags[j].origin].run] == j
      invariant forall r :: r in directory ==> directory[r] < i && origins[frags[directory[r]].origin].run == r
    {
      if frags[i].origin !in origins { return false, directory; }
      var run := origins[frags[i].origin].run;
      if run in directory {
        assert Listed(frags, origins) ==> RunsOf(frags, origins)[directory[run]] == RunsOf(frags, origins)[i];
        return false, directory;
      }
      directory := directory[run := i];
    }
    ok := true;
  }

  lemma MatchedIsCoherent(frags: seq<Fragment>, runs: seq<RunId>, index: RunIndex)
    requires |runs| == |frags| && NonEmptyRuns(frags) && Handles(runs) && RowsApart(index.origins)
    requires OriginsMatch(frags, runs, index.origins) && DeletionsMatch(frags, runs, index.deletions)
    requires DirectoryMatches(runs, index.directory) && Clean(frags)
    requires index.nextRun != 0 ==> forall i :: 0 <= i < |runs| ==> runs[i] < index.nextRun
    ensures Coherent(frags, index)
  {
    assert RunsOf(frags, index.origins) == runs;
    forall i, j | 0 <= i < j < |frags|
      ensures Separate(frags[i], frags[j])
    {
      assert runs[i] != runs[j];
      assert frags[i].origin in index.origins && frags[j].origin in index.origins;
    }
  }

  lemma CoherentRowsApart(was: seq<Fragment>, index: RunIndex)
    requires Coherent(was, index)
    ensures RowsApart(index.origins) && RowsNonEmpty(index.origins)
  {
    forall s, t | s in index.origins && t in index.origins && s != t && s.actor == t.actor
      ensures index.origins[s].end <= t.counter || index.origins[t].end <= s.counter
    {
      var i := RunAt(was, index, s);
      var j := RunAt(was, index, t);
      RunPairApart(was, i, j);
    }
    forall s | s in index.origins
      ensures s.counter < index.origins[s].end
    {
      var i := RunAt(was, index, s);
    }
  }

  lemma RunPairApart(was: seq<Fragment>, i: nat, j: nat)
    requires Apart(was) && i < |was| && j < |was| && i != j
    ensures Separate(was[i], was[j])
  {
    if j < i { assert Separate(was[j], was[i]); }
  }

  lemma RunAt(was: seq<Fragment>, index: RunIndex, s: Identity) returns (i: nat)
    requires Coherent(was, index) && s in index.origins
    ensures i < |was| && was[i].origin == s && Length(was[i]) > 0
    ensures index.origins[s].end == End(was[i]) && index.origins[s].run in index.directory
    ensures index.directory[index.origins[s].run] == i
  {
    assert StartsRun(was, s);
    i :| 0 <= i < |was| && was[i].origin == s;
    assert index.directory[RunsOf(was, index.origins)[i]] == i;
  }

  /** Publish the indexes of `frags` as a difference to those of `was`, or by a
      rebuild when there is nothing usable to differ from. If the result is
      marked valid it is coherent; it is valid whenever a rebuild would accept
      the fragments and the handles have not run out. */
  method SetFragments(was: seq<Fragment>, index: RunIndex, frags: seq<Fragment>) returns (r: RunIndex)
    requires NonEmptyRuns(frags) && (index.valid ==> Coherent(was, index))
    ensures r.valid ==> Coherent(frags, r)
    ensures Indexable(frags) && r.nextRun != 0 ==> r.valid
    ensures index.nextRun == 0 ==> r.nextRun == 0
    ensures Spends(index, |frags|, r)
  {
    hide Coherent, Indexable, OriginsMatch, DeletionsMatch, Clean, RowsApart, RowsAdded, LabelsAdded, HandlesUnique, Assigned, Handles;
    if index.valid { CoherentHandles(was, index); }
    var ok, runs, byRun, next := AssignRuns(frags, index);
    var published, o, d := false, map[], map[];
    if index.valid && ok {
      published, o, d := Delta(was, index, frags, runs, byRun);
    }
    if !published {
      published, o, d := InsertRows(map[], map[], frags, runs, map[], {});
      if published { RebuiltOrigins(frags, runs, o); RebuiltLabels(frags, runs, d); RebuiltClean(frags, runs, d); }
    }
    IndexableStartsDiffer(frags);
    var located, directory := BuildDirectory(frags, o);
    if published { assert RunsOf(frags, o) == runs; }
    r := RunIndex(o, d, directory, next, published && located && ok);
    if r.valid { MatchedIsCoherent(frags, runs, r); }
  }

  lemma IndexableStartsDiffer(frags: seq<Fragment>)
    ensures Indexable(frags) ==> StartsDiffer(frags)
  {
    assert Indexable(frags) ==> forall i, j :: 0 <= i < j < |frags| ==> Separate(frags[i], frags[j]);
  }

  lemma {:induction false} DeltaMatches(was: seq<Fragment>, index: RunIndex, frags: seq<Fragment>, runs: seq<RunId>, byRun: map<RunId, nat>,
                                       changed: set<RunId>, o: Origins, d: Deletions)
    requires Coherent(was, index) && |runs| == |frags| && DirectoryMatches(runs, byRun) && HandlesKept(index, frags, runs)
    requires DeltaDone(was, index, frags, runs, byRun, changed, o, d)
    ensures OriginsMatch(frags, runs, o) && DeletionsMatch(frags, runs, d) && Clean(frags)
  {
    hide *;
    DeltaOrigins(was, index, frags, runs, byRun, changed, o, d);
    DeltaLabels(was, index, frags, runs, byRun, changed, o, d);
    DeltaClean(was, index, frags, runs, byRun, changed, o, d);
  }

  method Delta(was: seq<Fragment>, index: RunIndex, frags: seq<Fragment>, runs: seq<RunId>, byRun: map<RunId, nat>)
    returns (ok: bool, o: Origins, d: Deletions)
    requires index.valid && Coherent(was, index) && |runs| == |frags|
    requires DirectoryMatches(runs, byRun)
    requires forall i :: 0 <= i < |frags| && PriorRun(index, frags[i]) != 0 ==> runs[i] == PriorRun(index, frags[i])
    ensures ok ==> OriginsMatch(frags, runs, o) && DeletionsMatch(frags, runs, d) && RowsApart(o) && Clean(frags)
  {
    CoherentStarts(was, index);
    CoherentHandles(was, index);
    CoherentRowsApart(was, index);
    var changed;
    ok, o, d, changed := EraseChanged(was, index, frags, byRun);
    if ok {
      ok, o, d := InsertRows(o, d, frags, runs, index.origins, changed);
      if ok {
        assert HandlesKept(index, frags, runs);
        assert DeltaDone(was, index, frags, runs, byRun, changed, o, d);
        DeltaMatches(was, index, frags, runs, byRun, changed, o, d);
      }
    }
  }

  // ---- Lookups -----------------------------------------------------------

  /** A row of the origin index with the run's start. */
  datatype Row = Row(start: Identity, interval: Interval)

  /** The rows of one actor that start in [lo, hi) and end after `first`, in
      counter order. */
  ghost predicate RowsBetween(origins: Origins, actor: ActorId, first: nat, lo: nat, hi: nat, rows: seq<Row>) {
    && (forall k :: 0 <= k < |rows| ==> RowBetween(origins, actor, first, lo, hi, rows[k]))
    && (forall j, k :: 0 <= j < k < |rows| ==> rows[j].start.counter < rows[k].start.counter)
    && (forall r :: RowBetween(origins, actor, first, lo, hi, r) ==> r in rows)
  }

  predicate RowBetween(origins: Origins, actor: ActorId, first: nat, lo: nat, hi: nat, r: Row) {
    && r.start in origins && r.interval == origins[r.start]
    && r.start.actor == actor && lo <= r.start.counter < hi && first < r.interval.end
  }

  lemma NextRow(origins: Origins, actor: ActorId, first: nat, lo: nat, c: nat, rows: seq<Row>)
    requires lo <= c && RowsBetween(origins, actor, first, lo, c, rows)
    ensures var s := Identity(actor, c);
            if s in origins && origins[s].end > first
            then RowsBetween(origins, actor, first, lo, c + 1, rows + [Row(s, origins[s])])
            else RowsBetween(origins, actor, first, lo, c + 1, rows)
  {
    var s := Identity(actor, c);
    if s in origins && origins[s].end > first {
      var more := rows + [Row(s, origins[s])];
      assert more[|rows|] == Row(s, origins[s]);
      forall r | RowBetween(origins, actor, first, lo, c + 1, r)
        ensures r in more
      {
        if r.start.counter < c { assert RowBetween(origins, actor, first, lo, c, r); } else { assert r == more[|rows|]; }
      }
    } else {
      forall r | RowBetween(origins, actor, first, lo, c + 1, r)
        ensures r in rows
      {
        assert RowBetween(origins, actor, first, lo, c, r);
      }
    }
  }

  /** No row starts between `before` and `first`. */
  ghost predicate IsPredecessor(origins: Origins, actor: ActorId, first: nat, before: Option<Identity>) {
    && (before.Some? ==> before.value in origins && before.value.actor == actor && before.value.counter <= first)
    && (forall t :: t in origins && t.actor == actor && t.counter <= first ==>
          before.Some? && t.counter <= before.value.counter)
  }

  predicate Reaching(origins: Origins, first: nat, before: Option<Identity>) {
    before.Some? && before.value in origins && origins[before.value].end > first && before.value.counter < first
  }

  /** With runs apart, only the run that starts last before `first` can reach it. */
  lemma OnlyPredecessorReaches(origins: Origins, actor: ActorId, first: nat, end: nat, before: Option<Identity>, r: Row)
    requires RowsApart(origins) && RowsNonEmpty(origins) && IsPredecessor(origins, actor, first, before)
    requires RowBetween(origins, actor, first, 0, end, r) && r.start.counter < first
    ensures Reaching(origins, first, before) && r == Row(before.value, origins[before.value])
  {
  }

  lemma FirstRow(origins: Origins, actor: ActorId, first: nat, end: nat, rows: seq<Row>, before: Option<Identity>)
    requires RowsApart(origins) && RowsNonEmpty(origins) && RowsBetween(origins, actor, first, first, end, rows) && first < end
    requires IsPredecessor(origins, actor, first, before)
    ensures if Reaching(origins, first, before)
            then RowsBetween(origins, actor, first, 0, end, [Row(before.value, origins[before.value])] + rows)
            else RowsBetween(origins, actor, first, 0, end, rows)
  {
    forall r | RowBetween(origins, actor, first, 0, end, r) && r.start.counter < first
      ensures Reaching(origins, first, before) && r == Row(before.value, origins[before.value])
    {
      OnlyPredecessorReaches(origins, actor, first, end, before, r);
    }
    if Reaching(origins, first, before) {
      PrependRow(origins, actor, first, end, rows, Row(before.value, origins[before.value]));
    } else {
      forall r | RowBetween(origins, actor, first, 0, end, r)
        ensures r in rows
      {
        assert RowBetween(origins, actor, first, first, end, r);
      }
    }
  }

  lemma PrependRow(origins: Origins, actor: ActorId, first: nat, end: nat, rows: seq<Row>, head: Row)
    requires RowsBetween(origins, actor, first, first, end, rows)
    requires RowBetween(origins, actor, first, 0, end, head) && head.start.counter < first
    requires forall r :: RowBetween(origins, actor, first, 0, end, r) && r.start.counter < first ==> r == head
    ensures RowsBetween(origins, actor, first, 0, end, [head] + rows)
  {
    var more := [head] + rows;
    assert forall k :: 0 < k < |more| ==> more[k] == rows[k - 1];
    forall r | RowBetween(origins, actor, first, 0, end, r)
      ensures r in more
    {
      if r.start.counter >= first {
        assert RowBetween(origins, actor, first, first, end, r);
      } else {
        assert more[0] == r;
      }
    }
  }

  /** The latest row that starts at or before `id`. */
  method Predecessor(origins: Origins, id: Identity) returns (s: Option<Identity>)
    ensures IsPredecessor(origins, id.actor, id.counter, s)
  {
    var c := id.counter + 1;
    while c > 0
      invariant c <= id.counter + 1
      invariant forall t :: t in origins && t.actor == id.actor && t.counter <= id.counter ==> t.counter < c
    {
      c := c - 1;
      if Identity(id.actor, c) in origins { return Some(Identity(id.actor, c)); }
    }
    return None;
  }

  /** All rows of one actor that overlap [first, end): those from `first` on,
      then the one that can reach into the interval from before it. */
  method Overlapping(origins: Origins, actor: ActorId, first: nat, end: nat) returns (rows: seq<Row>)
    requires RowsApart(origins) && RowsNonEmpty(origins) && first < end
    ensures RowsBetween(origins, actor, first, 0, end, rows)
  {
    rows := [];
    for c := first to end
      invariant RowsBetween(origins, actor, first, first, c, rows)
    {
      NextRow(origins, actor, first, first, c, rows);
      var s := Identity(actor, c);
      if s in origins && origins[s].end > first {
        rows := rows + [Row(s, origins[s])];
      }
    }
    var before := Predecessor(origins, Identity(actor, first));
    FirstRow(origins, actor, first, end, rows, before);
    if Reaching(origins, first, before) {
      rows := [Row(before.value, origins[before.value])] + rows;
    }
  }

  /** The rank of a run, checked against its row. */
  method RetainedRank(frags: seq<Fragment>, index: RunIndex, run: RunId) returns (rank: Option<nat>)
    ensures rank.Some? ==> rank.value < |frags| && frags[rank.value].origin in index.origins
                           && index.origins[frags[rank.value].origin] == Interval(End(frags[rank.value]), run)
    ensures Coherent(frags, index) && run in index.directory ==> rank.Some?
  {
    assert Coherent(frags, index) && run in index.directory ==>
        RunsOf(frags, index.origins)[index.directory[run]] == run;
    if run !in index.directory { return None; }
    var at := index.directory[run];
    if at >= |frags| { return None; }
    var f := frags[at];
    if f.origin !in index.origins || index.origins[f.origin] != Interval(End(f), run) { return None; }
    return Some(at);
  }

  lemma RowIsRun(frags: seq<Fragment>, index: RunIndex, s: Identity)
    requires Coherent(frags, index) && s in index.origins
    ensures index.origins[s].run in index.directory && index.directory[index.origins[s].run] < |frags|
    ensures frags[index.directory[index.origins[s].run]].origin == s
    ensures index.origins[s] == Interval(End(frags[index.directory[index.origins[s].run]]), index.origins[s].run)
  {
    assert StartsRun(frags, s);
    var runs := RunsOf(frags, index.origins);
    var i :| 0 <= i < |frags| && frags[i].origin == s;
    assert index.directory[runs[i]] == i;
  }

  // ---- Publishing one run ------------------------------------------------

  /** Index a run appended after all others. */
  method AppendRow(frags: seq<Fragment>, index: RunIndex, f: Fragment) returns (ok: bool, r: RunIndex)
    requires index.valid && Coherent(frags, index)
    ensures ok ==> r.valid && Coherent(frags + [f], r) && Spends(index, 1, r)
    ensures RunUsable(f) && index.nextRun != 0 && (forall g :: g in frags ==> Separate(g, f)) ==> ok
  {
    var run := index.nextRun;
    var row := Interval(End(f), run);
    NewRunFits(frags, index, f);
    if run == 0 || Length(f) == 0 || !CanInsert(index.origins, f.origin, row) { return false, index; }
    var deletions;
    ok, deletions := InsertLabels(index.deletions, f, run);
    if !ok { return false, index; }
    r := RunIndex(index.origins[f.origin := row], deletions, index.directory[run := |frags|], NextRun(run), true);
    AppendedMatches(frags, index, f, r);
  }

  lemma NewRunFits(frags: seq<Fragment>, index: RunIndex, f: Fragment)
    requires Coherent(frags, index)
    ensures RunUsable(f) && index.nextRun != 0 && (forall g :: g in frags ==> Separate(g, f)) ==>
              CanInsert(index.origins, f.origin, Interval(End(f), index.nextRun)) && LabelsFit(index.deletions, f, index.nextRun)
  {
    if RunUsable(f) && index.nextRun != 0 && forall g :: g in frags ==> Separate(g, f) {
      forall s | s in index.origins && s.actor == f.origin.actor
        ensures s != f.origin && (index.origins[s].end <= f.origin.counter || End(f) <= s.counter)
      {
        assert StartsRun(frags, s);
        var i :| 0 <= i < |frags| && frags[i].origin == s;
        assert Separate(frags[i], f) && Length(frags[i]) > 0;
      }
      forall k | k in index.deletions && k.start.actor == f.origin.actor
        ensures k.start != f.origin && (index.deletions[k].end <= f.origin.counter || End(f) <= k.start.counter)
      {
        var g := LabelledRun(frags, index, k);
        KeptLabel(frags, index, g, k.deletion);
        assert Separate(g, f);
      }
    }
  }

  lemma AppendedMatches(frags: seq<Fragment>, index: RunIndex, f: Fragment, r: RunIndex)
    requires Coherent(frags, index) && index.nextRun != 0 && Length(f) > 0
    requires CanInsert(index.origins, f.origin, Interval(End(f), index.nextRun))
    requires LabelsPut(index.deletions, r.deletions, f, index.nextRun)
    requires r.origins == index.origins[f.origin := Interval(End(f), index.nextRun)]
    requires r.directory == index.directory[index.nextRun := |frags|] && r.nextRun == NextRun(index.nextRun)
    ensures Coherent(frags + [f], r)
  {
    var all, runs := frags + [f], RunsOf(frags, index.origins) + [index.nextRun];
    CoherentRowsApart(frags, index);
    AppendedOrigins(frags, index, f, r);
    AppendedLabels(frags, index, f, r);
    HandlesOf(frags, index);
    AppendedHandles(RunsOf(frags, index.origins), index.directory, index.nextRun);
    InsertApart(index.origins, f.origin, Interval(End(f), index.nextRun));
    AppendedRuns(frags, index, f);
    MatchedIsCoherent(all, runs, r);
    hide *;
  }

  lemma HandlesOf(frags: seq<Fragment>, index: RunIndex)
    requires Coherent(frags, index)
    ensures Handles(RunsOf(frags, index.origins)) && DirectoryMatches(RunsOf(frags, index.origins), index.directory)
    ensures index.nextRun != 0 ==> forall i :: 0 <= i < |frags| ==> RunsOf(frags, index.origins)[i] < index.nextRun
  {
    hide OriginsMatch, DeletionsMatch, Clean, Apart, Handles, DirectoryMatches;
  }

  lemma AppendedRuns(frags: seq<Fragment>, index: RunIndex, f: Fragment)
    requires Coherent(frags, index) && Length(f) > 0 && NoRepeats(f.deletions)
    ensures NonEmptyRuns(frags + [f]) && Clean(frags + [f])
  {
    hide OriginsMatch, DeletionsMatch, Apart, Handles, DirectoryMatches, NoRepeats;
  }

  lemma InsertApart(origins: Origins, s: Identity, v: Interval)
    requires RowsApart(origins) && CanInsert(origins, s, v)
    ensures RowsApart(origins[s := v])
  {
  }

  lemma AppendedHandles(runs: seq<RunId>, directory: map<RunId, nat>, next: RunId)
    requires Handles(runs) && DirectoryMatches(runs, directory) && next != 0
    requires forall i :: 0 <= i < |runs| ==> runs[i] < next
    ensures Handles(runs + [next]) && DirectoryMatches(runs + [next], directory[next := |runs|])
    ensures NextRun(next) != 0 ==> forall i :: 0 <= i <= |runs| ==> (runs + [next])[i] < NextRun(next)
  {
    forall r | r in directory
      ensures r != next
    {
      assert runs[directory[r]] == r;
    }
  }

  lemma AppendedOrigins(frags: seq<Fragment>, index: RunIndex, f: Fragment, r: RunIndex)
    requires Coherent(frags, index) && index.nextRun != 0
    requires f.origin !in index.origins
    requires r.origins == index.origins[f.origin := Interval(End(f), index.nextRun)]
    ensures OriginsMatch(frags + [f], RunsOf(frags, index.origins) + [index.nextRun], r.origins)
  {
    var all := frags + [f];
    forall s | s in r.origins
      ensures StartsRun(all, s)
    {
      if s in index.origins {
        assert StartsRun(frags, s);
        var i :| 0 <= i < |frags| && frags[i].origin == s;
        assert all[i] == frags[i];
      } else {
        assert all[|frags|].origin == s;
      }
    }
  }

  lemma AppendedLabels(frags: seq<Fragment>, index: RunIndex, f: Fragment, r: RunIndex)
    requires Coherent(frags, index) && LabelsPut(index.deletions, r.deletions, f, index.nextRun)
    ensures DeletionsMatch(frags + [f], RunsOf(frags, index.origins) + [index.nextRun], r.deletions)
  {
    var all, runs := frags + [f], RunsOf(frags, index.origins) + [index.nextRun];
    forall i, d | 0 <= i < |all| && d in all[i].deletions
      ensures Incidence(d, all[i].origin) in r.deletions
      ensures r.deletions[Incidence(d, all[i].origin)] == Interval(End(all[i]), runs[i])
    {
      var k := Incidence(d, all[i].origin);
      if i < |frags| {
        assert k in index.deletions;
      } else {
        assert LabelOf(f, k);
      }
    }
    forall k | k in r.deletions
      ensures Labels(all, k)
    {
      if k in index.deletions {
        assert Labels(frags, k);
        var i :| 0 <= i < |frags| && frags[i].origin == k.start && k.deletion in frags[i].deletions;
        assert all[i] == frags[i];
      } else {
        assert all[|frags|].origin == k.start;
      }
    }
  }

  /** Index one more deletion of a whole run. */
  method LabelRun(frags: seq<Fragment>, index: RunIndex, i: nat, d: Identity) returns (ok: bool, r: RunIndex)
    requires index.valid && Coherent(frags, index) && i < |frags|
    ensures ok ==> r.valid && Coherent(frags[i := frags[i].(deletions := frags[i].deletions + [d])], r) && r.nextRun == index.nextRun
  {
    var f := frags[i];
    var key, row := Incidence(d, f.origin), index.origins[f.origin];
    if !CanLabel(index.deletions, key, row) { return false, index; }
    r := index.(deletions := index.deletions[key := row]);
    ok := true;
    LabelledMatches(frags, index, i, d);
  }

  lemma LabelledMatches(frags: seq<Fragment>, index: RunIndex, i: nat, d: Identity)
    requires Coherent(frags, index) && i < |frags| && Incidence(d, frags[i].origin) !in index.deletions
    ensures Coherent(frags[i := frags[i].(deletions := frags[i].deletions + [d])],
                     index.(deletions := index.deletions[Incidence(d, frags[i].origin) := index.origins[frags[i].origin]]))
  {
    var all := frags[i := frags[i].(deletions := frags[i].deletions + [d])];
    var r := index.(deletions := index.deletions[Incidence(d, frags[i].origin) := index.origins[frags[i].origin]]);
    CoherentStarts(frags, index);
    SameStarts(frags, all, index.origins);
    LabelledRows(frags, RunsOf(frags, index.origins), index.deletions, i, d);
    SameExtents(frags, all);
    StaysClean(frags, i, d);
    assert RunsOf(all, r.origins) == RunsOf(frags, index.origins);
    hide NoRepeats;
  }

  /** One more deletion, not yet on the run. */
  lemma StaysClean(frags: seq<Fragment>, i: nat, d: Identity)
    requires i < |frags| && Clean(frags) && d !in frags[i].deletions
    ensures Clean(frags[i := frags[i].(deletions := frags[i].deletions + [d])])
  {
  }

  lemma SameExtents(frags: seq<Fragment>, all: seq<Fragment>)
    requires |all| == |frags| && Apart(frags) && NonEmptyRuns(frags)
    requires forall j :: 0 <= j < |frags| ==> all[j].origin == frags[j].origin && Length(all[j]) == Length(frags[j])
    ensures Apart(all) && NonEmptyRuns(all)
  {
    forall i, j | 0 <= i < j < |all|
      ensures Separate(all[i], all[j])
    {
      assert Separate(frags[i], frags[j]);
    }
  }

  lemma LabelledRows(frags: seq<Fragment>, runs: seq<RunId>, deletions: Deletions, i: nat, d: Identity)
    requires |runs| == |frags| && i < |frags| && DeletionsMatch(frags, runs, deletions)
    requires forall j :: 0 <= j < |frags| && frags[j].origin == frags[i].origin ==> j == i
    ensures DeletionsMatch(frags[i := frags[i].(deletions := frags[i].deletions + [d])], runs,
                           deletions[Incidence(d, frags[i].origin) := Interval(End(frags[i]), runs[i])])
  {
    var all := frags[i := frags[i].(deletions := frags[i].deletions + [d])];
    var key := Incidence(d, frags[i].origin);
    var r := deletions[key := Interval(End(frags[i]), runs[i])];
    forall j, x | 0 <= j < |all| && x in all[j].deletions
      ensures Incidence(x, all[j].origin) in r && r[Incidence(x, all[j].origin)] == Interval(End(all[j]), runs[j])
    {
      if Incidence(x, all[j].origin) != key { assert x in frags[j].deletions; }
    }
    forall k | k in r
      ensures Labels(all, k)
    {
      if k == key {
        assert all[i].origin == k.start;
      } else {
        assert Labels(frags, k);
        var j :| 0 <= j < |frags| && frags[j].origin == k.start && k.deletion in frags[j].deletions;
        assert all[j].origin == k.start;
      }
    }
  }

  /** Deletions do not matter to the origin table. */
  lemma SameStarts(frags: seq<Fragment>, all: seq<Fragment>, origins: Origins)
    requires |all| == |frags| && Listed(frags, origins)
    requires forall j :: 0 <= j < |frags| ==> all[j].origin == frags[j].origin && Length(all[j]) == Length(frags[j])
    requires OriginsMatch(frags, RunsOf(frags, origins), origins)
    ensures OriginsMatch(all, RunsOf(frags, origins), origins)
  {
    forall s | s in origins
      ensures StartsRun(all, s)
    {
      assert StartsRun(frags, s);
      var j :| 0 <= j < |frags| && frags[j].origin == s;
      assert all[j].origin == s;
    }
  }
}
