/** Remote deletion by runs of identities.

    A deletion run is followed identity by identity up to the first one the
    document does not hold. `ScanDeletions` does that by searching the fragments;
    `IndexedDeletions` resolves every run against the origin index first, merges
    what it finds and edits from right to left. Both mark the same items. */
module DeletionRuns {
  import opened Ids
  import opened FugueOrder
  import opened Fragments
  import opened SequenceOrder
  import opened Histories
  import opened Indexes
  import opened Sorting

  // ---- What a deletion marks ---------------------------------------------

  /** `id` is in the run, and so is everything of the run before it in the document. */
  ghost predicate Reaches(doc: Doc, r: DeletionRun, id: Identity) {
    InDeletion(r, id) && Present(doc, r.first, id.counter + 1)
  }

  /** The identities from `first` up to, not including, counter `hi` are there. */
  ghost predicate Present(doc: Doc, first: Identity, hi: nat) {
    forall c :: first.counter <= c < hi ==> Has(doc, Identity(first.actor, c))
  }

  ghost predicate Hit(doc: Doc, runs: seq<DeletionRun>, id: Identity) {
    exists r :: r in runs && Reaches(doc, r, id)
  }

  ghost function MarkIn(items: seq<Item>, ids: set<Identity>, d: Identity): (r: seq<Item>)
    ensures |r| == |items|
  {
    seq(|items|, i requires 0 <= i < |items| =>
      if items[i].node.id in ids then items[i].(dels := items[i].dels + {d}) else items[i])
  }

  ghost function HitIds(doc: Doc, runs: seq<DeletionRun>): set<Identity> {
    set i | 0 <= i < |doc| && Hit(doc, runs, doc[i].id) :: doc[i].id
  }

  /** The document after deletion `d` of `runs`. */
  ghost function Marked(items: seq<Item>, runs: seq<DeletionRun>, d: Identity): seq<Item> {
    MarkIn(items, HitIds(NodesOf(items), runs), d)
  }

  function Span(actor: ActorId, lo: nat, hi: nat): set<Identity> {
    set c | lo <= c < hi :: Identity(actor, c)
  }

  lemma MarkInNodes(items: seq<Item>, ids: set<Identity>, d: Identity)
    ensures NodesOf(MarkIn(items, ids, d)) == NodesOf(items)
  {
  }

  lemma MarkInTwice(items: seq<Item>, a: set<Identity>, b: set<Identity>, d: Identity)
    ensures MarkIn(MarkIn(items, a, d), b, d) == MarkIn(items, a + b, d)
  {
  }

  lemma MarkInConcat(x: seq<Item>, y: seq<Item>, ids: set<Identity>, d: Identity)
    ensures MarkIn(x + y, ids, d) == MarkIn(x, ids, d) + MarkIn(y, ids, d)
  {
  }

  /** Only identities of the document matter. */
  lemma MarkInSame(items: seq<Item>, a: set<Identity>, b: set<Identity>, d: Identity)
    requires SameOn(items, a, b)
    ensures MarkIn(items, a, d) == MarkIn(items, b, d)
  {
  }

  ghost predicate SameOn(items: seq<Item>, a: set<Identity>, b: set<Identity>) {
    forall i :: 0 <= i < |items| ==> (items[i].node.id in a <==> items[i].node.id in b)
  }

  lemma MarkInNone(items: seq<Item>, ids: set<Identity>, d: Identity)
    requires SameOn(items, ids, {})
    ensures MarkIn(items, ids, d) == items
  {
  }

  // ---- Marking part of a run ---------------------------------------------

  function AddDeletion(f: Fragment, d: Identity): Fragment {
    f.(deletions := f.deletions + [d])
  }

  lemma AddDeletionItems(f: Fragment, d: Identity)
    ensures ItemsOf(AddDeletion(f, d)) == MarkIn(ItemsOf(f), Span(f.origin.actor, f.origin.counter, End(f)), d)
  {
    var g := AddDeletion(f, d);
    forall k | 0 <= k < Length(f)
      ensures ItemOf(g, k) == ItemOf(f, k).(dels := ItemOf(f, k).dels + {d})
    {
      assert (set x | x in g.deletions) == (set x | x in f.deletions) + {d};
    }
  }

  /** Marking a whole run marks exactly its identities. */
  lemma MarkWhole(frags: seq<Fragment>, i: nat, d: Identity)
    requires i < |frags| && Distinct(DocOf(frags))
    ensures Items(frags[..i] + [AddDeletion(frags[i], d)] + frags[i + 1..])
            == MarkIn(Items(frags), Span(frags[i].origin.actor, frags[i].origin.counter, End(frags[i])), d)
  {
    var f := frags[i];
    ItemsReplace(frags, i, [AddDeletion(f, d)]);
    ItemsSingle(AddDeletion(f, d));
    AddDeletionItems(f, d);
    RunHasIds(f);
    MarkMiddle(Items(frags), Items(frags[..i]), ItemsOf(f), Items(frags[i + 1..]),
      Span(f.origin.actor, f.origin.counter, End(f)), d);
  }

  lemma RunHasIds(f: Fragment)
    ensures AllHeld(ItemsOf(f), Span(f.origin.actor, f.origin.counter, End(f)))
  {
    forall id | id in Span(f.origin.actor, f.origin.counter, End(f))
      ensures Held(ItemsOf(f), id)
    {
      assert ItemsOf(f)[id.counter - f.origin.counter].node.id == id;
    }
  }

  ghost predicate Held(part: seq<Item>, id: Identity) {
    exists k :: 0 <= k < |part| && part[k].node.id == id
  }

  ghost predicate AllHeld(part: seq<Item>, ids: set<Identity>) {
    forall id :: id in ids ==> Held(part, id)
  }

  /** Marking identities of one part leaves the rest alone. */
  lemma MarkMiddle(all: seq<Item>, before: seq<Item>, part: seq<Item>, after: seq<Item>, ids: set<Identity>, d: Identity)
    requires all == before + part + after && Distinct(NodesOf(all)) && AllHeld(part, ids)
    ensures MarkIn(all, ids, d) == before + MarkIn(part, ids, d) + after
  {
    OthersElsewhere(all, before, part, after, ids);
    MarkInConcat(before + part, after, ids, d);
    MarkInConcat(before, part, ids, d);
    MarkInNone(before, ids, d);
    MarkInNone(after, ids, d);
  }

  /** No item outside a part has an identity of that part. */
  lemma OthersElsewhere(all: seq<Item>, before: seq<Item>, part: seq<Item>, after: seq<Item>, ids: set<Identity>)
    requires all == before + part + after && Distinct(NodesOf(all)) && AllHeld(part, ids)
    ensures SameOn(before, ids, {}) && SameOn(after, ids, {})
  {
    var doc := NodesOf(all);
    forall id | id in ids
      ensures forall j :: 0 <= j < |before| ==> before[j].node.id != id
      ensures forall j :: 0 <= j < |after| ==> after[j].node.id != id
    {
      assert Held(part, id);
      var k :| 0 <= k < |part| && part[k].node.id == id;
      assert doc[|before| + k].id == id;
      assert forall j :: 0 <= j < |before| ==> doc[j].id == before[j].node.id;
      assert forall j :: 0 <= j < |after| ==> doc[|before| + |part| + j].id == after[j].node.id;
    }
  }

  function SplitAt(frags: seq<Fragment>, i: nat, k: nat): seq<Fragment>
    requires i < |frags| && !frags[i].marker && k <= |frags[i].text|
  {
    frags[..i] + [Prefix(frags[i], k), Suffix(frags[i], k)] + frags[i + 1..]
  }

  lemma SplitItems(frags: seq<Fragment>, i: nat, k: nat)
    requires i < |frags| && !frags[i].marker && 0 < k <= |frags[i].text|
    ensures Items(SplitAt(frags, i, k)) == Items(frags)
  {
    ItemsReplace(frags, i, [Prefix(frags[i], k), Suffix(frags[i], k)]);
    ItemsPair(Prefix(frags[i], k), Suffix(frags[i], k));
    SplitKeepsItems(frags[i], k);
  }

  /** The runs before `at` are untouched. */
  ghost predicate SameBelow(frags: seq<Fragment>, r: seq<Fragment>, at: nat) {
    at <= |frags| && at <= |r| && forall i :: 0 <= i < at ==> r[i] == frags[i]
  }

  /** Cut run `at` before its item `off`, unless that is where it starts. The
      rest of the run is then run `fi`. */
  method CutFront(frags: seq<Fragment>, at: nat, off: nat) returns (r: seq<Fragment>, fi: nat)
    requires NonEmptyRuns(frags) && at < |frags| && off < Length(frags[at])
    ensures NonEmptyRuns(r) && |frags| <= |r| && Items(r) == Items(frags)
    ensures at <= fi < |r| && SameBelow(frags, r, at)
    ensures r[fi].origin == ItemAt(frags[at], off) && Length(r[fi]) == Length(frags[at]) - off
    ensures r[fi].marker == frags[at].marker && r[fi].deletions == frags[at].deletions
    ensures DelLists(r) <= DelLists(frags)
    ensures if off > 0 then !frags[at].marker && fi == at + 1 && r[at] == Prefix(frags[at], off)
            else fi == at && r == frags
  {
    r, fi := frags, at;
    if off > 0 {
      SplitItems(r, fi, off);
      r := SplitAt(r, fi, off);
      fi := fi + 1;
    }
  }

  /** Cut run `at` after its first `count` items, unless it ends there. */
  method CutBack(frags: seq<Fragment>, at: nat, count: nat) returns (r: seq<Fragment>)
    requires NonEmptyRuns(frags) && at < |frags| && 0 < count <= Length(frags[at])
    ensures NonEmptyRuns(r) && |frags| <= |r| && Items(r) == Items(frags)
    ensures at < |r| && SameBelow(frags, r, at) && r[at].origin == frags[at].origin && Length(r[at]) == count
    ensures r[at].deletions == frags[at].deletions && DelLists(r) <= DelLists(frags)
  {
    r := frags;
    if count < Length(r[at]) {
      SplitItems(r, at, count);
      r := SplitAt(r, at, count);
    }
  }

  /** Cut out items [off, off + count) of run `at` and mark them. What is left of
      the cut stays where it was. */
  method MarkPart(frags: seq<Fragment>, at: nat, off: nat, count: nat, d: Identity) returns (r: seq<Fragment>)
    requires NonEmptyRuns(frags) && Distinct(DocOf(frags)) && at < |frags|
    requires count > 0 && off + count <= Length(frags[at])
    ensures NonEmptyRuns(r) && |r| >= |frags|
    ensures Items(r) == MarkIn(Items(frags), PartIds(frags[at], off, count), d)
    ensures SameBelow(frags, r, at)
    ensures off > 0 ==> !frags[at].marker && r[at] == Prefix(frags[at], off)
    ensures DelLists(r) <= DelLists(frags) + {frags[at].deletions + [d]}
  {
    var front, fi := CutFront(frags, at, off);
    var cut := CutBack(front, fi, count);
    MarkWhole(cut, fi, d);
    r := cut[..fi] + [AddDeletion(cut[fi], d)] + cut[fi + 1..];
  }

  function PartIds(f: Fragment, off: nat, count: nat): set<Identity> {
    Span(f.origin.actor, f.origin.counter + off, f.origin.counter + off + count)
  }

  // ---- The scan ----------------------------------------------------------

  method ScanRun(frags: seq<Fragment>, run: DeletionRun, d: Identity) returns (r: seq<Fragment>)
    requires NonEmptyRuns(frags) && Distinct(DocOf(frags))
    ensures NonEmptyRuns(r) && Items(r) == Marked(Items(frags), [run], d)
  {
    r := frags;
    ghost var doc := DocOf(frags);
    var remaining, next := run.count, run.first.counter;
    MarkInNone(Items(frags), Span(run.first.actor, next, next), d);
    while remaining > 0
      invariant run.first.counter <= next && next + remaining == run.first.counter + run.count
      invariant NonEmptyRuns(r) && DocOf(r) == doc
      invariant next <= run.first.counter + run.count && Present(doc, run.first, next)
      invariant Items(r) == MarkIn(Items(frags), Span(run.first.actor, run.first.counter, next), d)
    {
      var at := FindItem(r, Identity(run.first.actor, next));
      if at.None? { break; }
      var count := if remaining < Length(r[at.value.frag]) - at.value.off then remaining
                   else Length(r[at.value.frag]) - at.value.off;
      ScanStep(frags, r, run, next, at.value, count, d);
      r := MarkPart(r, at.value.frag, at.value.off, count, d);
      next := next + count;
      remaining := remaining - count;
    }
    SpanIsHit(doc, run, next);
    assert SameOn(Items(frags), Span(run.first.actor, run.first.counter, next), HitIds(doc, [run])) by {
      assert forall i :: 0 <= i < |doc| ==> Items(frags)[i].node == doc[i];
    }
    MarkInSame(Items(frags), Span(run.first.actor, run.first.counter, next), HitIds(doc, [run]), d);
  }

  lemma ScanStep(frags: seq<Fragment>, r: seq<Fragment>, run: DeletionRun, next: nat, at: Pos, count: nat, d: Identity)
    requires DocOf(r) == DocOf(frags) && Present(DocOf(frags), run.first, next) && run.first.counter <= next
    requires InRun(r, at) && IdAt(r, at) == Identity(run.first.actor, next)
    requires at.off + count <= Length(r[at.frag])
    requires Items(r) == MarkIn(Items(frags), Span(run.first.actor, run.first.counter, next), d)
    ensures Present(DocOf(frags), run.first, next + count)
    ensures MarkIn(Items(r), PartIds(r[at.frag], at.off, count), d)
            == MarkIn(Items(frags), Span(run.first.actor, run.first.counter, next + count), d)
    ensures NodesOf(MarkIn(Items(r), PartIds(r[at.frag], at.off, count), d)) == DocOf(frags)
  {
    var a, lo := run.first.actor, run.first.counter;
    forall c | next <= c < next + count
      ensures Has(DocOf(frags), Identity(a, c))
    {
      ContainsHas(r, at.frag, Identity(a, c));
    }
    MarkInTwice(Items(frags), Span(a, lo, next), Span(a, next, next + count), d);
    MarkInSame(Items(frags), Span(a, lo, next) + Span(a, next, next + count), Span(a, lo, next + count), d);
    MarkInNodes(Items(r), PartIds(r[at.frag], at.off, count), d);
  }

  /** A span that stops at the run's end or at the first missing identity is
      what the run reaches. */
  lemma SpanIsHit(doc: Doc, run: DeletionRun, next: nat)
    requires run.first.counter <= next <= run.first.counter + run.count && Present(doc, run.first, next)
    requires next == run.first.counter + run.count || !Has(doc, Identity(run.first.actor, next))
    ensures forall i :: 0 <= i < |doc| ==>
              (doc[i].id in Span(run.first.actor, run.first.counter, next) <==> Hit(doc, [run], doc[i].id))
  {
    forall i | 0 <= i < |doc|
      ensures doc[i].id in Span(run.first.actor, run.first.counter, next) <==> Reaches(doc, run, doc[i].id)
    {
    }
    assert forall id :: Hit(doc, [run], id) <==> Reaches(doc, run, id) by {
      assert run in [run];
    }
  }

  /** The authoritative form: search the fragments for every identity. */
  method ScanDeletions(frags: seq<Fragment>, runs: seq<DeletionRun>, d: Identity) returns (r: seq<Fragment>)
    requires NonEmptyRuns(frags) && Distinct(DocOf(frags))
    ensures NonEmptyRuns(r) && Items(r) == Marked(Items(frags), runs, d)
  {
    r := frags;
    MarkInNone(Items(frags), HitIds(DocOf(frags), []), d);
    for k := 0 to |runs|
      invariant NonEmptyRuns(r) && Items(r) == Marked(Items(frags), runs[..k], d)
    {
      MarkInNodes(Items(frags), HitIds(DocOf(frags), runs[..k]), d);
      MarkedStep(Items(frags), runs, k, d);
      r := ScanRun(r, runs[k], d);
    }
    assert runs[..|runs|] == runs;
  }

  lemma MarkedStep(items: seq<Item>, runs: seq<DeletionRun>, k: nat, d: Identity)
    requires k < |runs|
    ensures Marked(Marked(items, runs[..k], d), [runs[k]], d) == Marked(items, runs[..k + 1], d)
  {
    var doc := NodesOf(items);
    MarkInNodes(items, HitIds(doc, runs[..k]), d);
    MarkInTwice(items, HitIds(doc, runs[..k]), HitIds(doc, [runs[k]]), d);
    assert runs[..k + 1] == runs[..k] + [runs[k]];
    HitConcat(doc, runs[..k], [runs[k]]);
  }

  lemma HitConcat(doc: Doc, a: seq<DeletionRun>, b: seq<DeletionRun>)
    ensures HitIds(doc, a + b) == HitIds(doc, a) + HitIds(doc, b)
  {
    forall id
      ensures Hit(doc, a + b, id) <==> Hit(doc, a, id) || Hit(doc, b, id)
    {
      if Hit(doc, a, id) {
        var r :| r in a && Reaches(doc, r, id);
        assert r in a + b;
      }
      if Hit(doc, b, id) {
        var r :| r in b && Reaches(doc, r, id);
        assert r in a + b;
      }
    }
  }

  // ---- The indexed form --------------------------------------------------

  /** Items [off, off + count) of run `frag`. */
  datatype Target = Target(frag: nat, off: nat, count: nat)

  predicate InBounds(frags: seq<Fragment>, t: Target) {
    t.frag < |frags| && t.count > 0 && t.off + t.count <= Length(frags[t.frag])
  }

  predicate AllInBounds(frags: seq<Fragment>, targets: seq<Target>) {
    forall t :: t in targets ==> InBounds(frags, t)
  }

  function TargetIds(frags: seq<Fragment>, t: Target): set<Identity>
    requires InBounds(frags, t)
  {
    PartIds(frags[t.frag], t.off, t.count)
  }

  ghost function AllIds(frags: seq<Fragment>, targets: seq<Target>): set<Identity>
    requires AllInBounds(frags, targets)
  {
    set t, id | t in targets && id in TargetIds(frags, t) :: id
  }

  lemma AllIdsConcat(frags: seq<Fragment>, a: seq<Target>, b: seq<Target>)
    requires AllInBounds(frags, a) && AllInBounds(frags, b)
    ensures AllInBounds(frags, a + b) && AllIds(frags, a + b) == AllIds(frags, a) + AllIds(frags, b)
  {
  }

  lemma AllIdsOne(frags: seq<Fragment>, t: Target)
    requires InBounds(frags, t)
    ensures AllInBounds(frags, [t]) && AllIds(frags, [t]) == TargetIds(frags, t)
  {
    assert t in [t];
  }

  /** All of `rows` up to `k` end by `covered`, those after start past it. */
  ghost predicate RowsUpTo(rows: seq<Row>, k: nat, end: nat, covered: nat)
    requires k <= |rows|
  {
    forall j :: 0 <= j < k ==> rows[j].interval.end <= covered || covered == end
  }

  /** The first identity no row covers is missing from the document. */
  lemma UncoveredIsMissing(frags: seq<Fragment>, index: RunIndex, run: DeletionRun, rows: seq<Row>, k: nat, covered: nat)
    requires Coherent(frags, index) && run.first.counter <= covered < run.first.counter + run.count
    requires RowsBetween(index.origins, run.first.actor, run.first.counter, 0, run.first.counter + run.count, rows)
    requires k <= |rows| && RowsUpTo(rows, k, run.first.counter + run.count, covered)
    requires k < |rows| ==> rows[k].start.counter > covered
    ensures !Has(DocOf(frags), Identity(run.first.actor, covered))
  {
    var id := Identity(run.first.actor, covered);
    if Has(DocOf(frags), id) {
      HasContains(frags, id);
      var i :| 0 <= i < |frags| && Contains(frags[i], id);
      var row := Row(frags[i].origin, index.origins[frags[i].origin]);
      assert row.interval.end == End(frags[i]);
      assert RowBetween(index.origins, run.first.actor, run.first.counter, 0, run.first.counter + run.count, row);
    }
  }

  /** `targets` are the run's identities below `covered`, all of them present. */
  ghost predicate Resolved(frags: seq<Fragment>, run: DeletionRun, targets: seq<Target>, covered: nat) {
    && run.first.counter <= covered <= run.first.counter + run.count
    && AllInBounds(frags, targets)
    && AllIds(frags, targets) == Span(run.first.actor, run.first.counter, covered)
    && Present(DocOf(frags), run.first, covered)
  }

  /** Extend the targets by what one row covers past `covered`. */
  method ResolveRow(frags: seq<Fragment>, index: RunIndex, run: DeletionRun, row: Row, targets: seq<Target>, covered: nat)
    returns (ok: bool, more: seq<Target>, reached: nat)
    requires Coherent(frags, index) && Resolved(frags, run, targets, covered) && row.start.counter <= covered
    requires RowBetween(index.origins, run.first.actor, run.first.counter, 0, run.first.counter + run.count, row)
    ensures ok && Resolved(frags, run, more, reached) && covered <= reached
    ensures row.interval.end <= reached || reached == run.first.counter + run.count
  {
    var end := run.first.counter + run.count;
    var hi := if row.interval.end < end then row.interval.end else end;
    if hi <= covered { return true, targets, covered; }
    RowIsRun(frags, index, row.start);
    var rank := RetainedRank(frags, index, row.interval.run);
    if rank.None? { return false, [], covered; }
    var t := Target(rank.value, covered - row.start.counter, hi - covered);
    RankIsRow(frags, index, row, rank.value);
    ResolveStep(frags, run, targets, t, covered);
    return true, targets + [t], hi;
  }

  /** Resolve one run against the index, stopping at the first identity no run
      holds. */
  method ResolveRun(frags: seq<Fragment>, index: RunIndex, run: DeletionRun) returns (ok: bool, targets: seq<Target>)
    requires Distinct(DocOf(frags)) && Coherent(frags, index)
    ensures ok && AllInBounds(frags, targets)
    ensures AllIds(frags, targets) == HitIds(DocOf(frags), [run])
  {
    StartResolve(frags, run);
    if run.count == 0 {
      ResolvedIsHit(frags, run, [], run.first.counter);
      return true, [];
    }
    CoherentRowsApart(frags, index);
    var rows := Overlapping(index.origins, run.first.actor, run.first.counter, run.first.counter + run.count);
    ok, targets := ResolveRows(frags, index, run, rows);
  }

  method ResolveRows(frags: seq<Fragment>, index: RunIndex, run: DeletionRun, rows: seq<Row>)
    returns (ok: bool, targets: seq<Target>)
    requires Coherent(frags, index)
    requires RowsBetween(index.origins, run.first.actor, run.first.counter, 0, run.first.counter + run.count, rows)
    ensures ok && AllInBounds(frags, targets)
    ensures AllIds(frags, targets) == HitIds(DocOf(frags), [run])
  {
    hide Coherent, AllIds, Span, Present, AllInBounds;
    var end := run.first.counter + run.count;
    var covered: nat := run.first.counter;
    var k := 0;
    ok, targets := true, [];
    StartResolve(frags, run);
    while k < |rows| && covered < end && rows[k].start.counter <= covered
      invariant k <= |rows| && Resolved(frags, run, targets, covered) && RowsUpTo(rows, k, end, covered)
      decreases |rows| - k
    {
      ok, targets, covered := ResolveRow(frags, index, run, rows[k], targets, covered);
      if !ok { return; }
      k := k + 1;
    }
    if covered < end { UncoveredIsMissing(frags, index, run, rows, k, covered); }
    ResolvedIsHit(frags, run, targets, covered);
    ok := true;
  }

  lemma StartResolve(frags: seq<Fragment>, run: DeletionRun)
    ensures Resolved(frags, run, [], run.first.counter)
  {
  }

  lemma ResolvedIsHit(frags: seq<Fragment>, run: DeletionRun, targets: seq<Target>, covered: nat)
    requires Resolved(frags, run, targets, covered)
    requires covered == run.first.counter + run.count || !Has(DocOf(frags), Identity(run.first.actor, covered))
    ensures AllIds(frags, targets) == HitIds(DocOf(frags), [run])
  {
    SpanIsHit(DocOf(frags), run, covered);
    SpanIsHitIds(DocOf(frags), run, covered);
  }

  lemma RankIsRow(frags: seq<Fragment>, index: RunIndex, row: Row, rank: nat)
    requires Coherent(frags, index) && row.start in index.origins && row.interval == index.origins[row.start]
    requires rank < |frags| && frags[rank].origin in index.origins
    requires index.origins[frags[rank].origin] == Interval(End(frags[rank]), row.interval.run)
    ensures frags[rank].origin == row.start && End(frags[rank]) == row.interval.end
  {
    CoherentHandles(frags, index);
  }

  lemma ResolveStep(frags: seq<Fragment>, run: DeletionRun, targets: seq<Target>, t: Target, covered: nat)
    requires Resolved(frags, run, targets, covered) && InBounds(frags, t)
    requires covered + t.count <= run.first.counter + run.count
    requires frags[t.frag].origin.actor == run.first.actor && frags[t.frag].origin.counter + t.off == covered
    ensures Resolved(frags, run, targets + [t], covered + t.count)
  {
    var hi := covered + t.count;
    AllIdsOne(frags, t);
    AllIdsConcat(frags, targets, [t]);
    assert TargetIds(frags, t) == Span(run.first.actor, covered, hi);
    forall c | covered <= c < hi
      ensures Has(DocOf(frags), Identity(run.first.actor, c))
    {
      ContainsHas(frags, t.frag, Identity(run.first.actor, c));
    }
  }

  lemma SpanIsHitIds(doc: Doc, run: DeletionRun, next: nat)
    requires run.first.counter <= next && Present(doc, run.first, next)
    requires forall i :: 0 <= i < |doc| ==>
               (doc[i].id in Span(run.first.actor, run.first.counter, next) <==> Hit(doc, [run], doc[i].id))
    ensures Span(run.first.actor, run.first.counter, next) == HitIds(doc, [run])
  {
    forall id | id in Span(run.first.actor, run.first.counter, next)
      ensures id in HitIds(doc, [run])
    {
      assert Has(doc, Identity(run.first.actor, id.counter));
      assert doc[Index(doc, id)].id == id;
    }
  }

  method ResolveAll(frags: seq<Fragment>, index: RunIndex, runs: seq<DeletionRun>) returns (ok: bool, targets: seq<Target>)
    requires Distinct(DocOf(frags)) && Coherent(frags, index)
    ensures ok && AllInBounds(frags, targets)
    ensures AllIds(frags, targets) == HitIds(DocOf(frags), runs)
  {
    ok, targets := true, [];
    for k := 0 to |runs|
      invariant ok && AllInBounds(frags, targets)
      invariant AllIds(frags, targets) == HitIds(DocOf(frags), runs[..k])
    {
      var more;
      ok, more := ResolveRun(frags, index, runs[k]);
      if !ok { return; }
      AllIdsConcat(frags, targets, more);
      HitConcat(DocOf(frags), runs[..k], [runs[k]]);
      assert runs[..k + 1] == runs[..k] + [runs[k]];
      targets := targets + more;
    }
    assert runs[..|runs|] == runs;
  }

  // ---- Sorting and merging -----------------------------------------------

  predicate TargetBefore(a: Target, b: Target) {
    a.frag < b.frag || (a.frag == b.frag && a.off <= b.off)
  }

  ghost predicate TargetsAscend(targets: seq<Target>) {
    forall i, j :: 0 <= i < j < |targets| ==> TargetBefore(targets[i], targets[j])
  }

  function PlaceKey(t: Target): SortKey {
    SortKey(t.frag, t.off)
  }

  method SortTargets(targets: seq<Target>) returns (sorted: seq<Target>)
    ensures TargetsAscend(sorted) && forall t :: t in sorted <==> t in targets
  {
    sorted := SortBy(targets, PlaceKey);
    forall i, j | 0 <= i < j < |sorted|
      ensures TargetBefore(sorted[i], sorted[j])
    {
      assert !KeyBelow(PlaceKey(sorted[j]), PlaceKey(sorted[i]));
    }
  }

  /** Targets of one run neither overlap nor touch. */
  ghost predicate Spaced(targets: seq<Target>) {
    forall i, j :: 0 <= i < j < |targets| ==> Clear(targets[i], targets[j])
  }

  predicate Clear(a: Target, b: Target) {
    a.frag < b.frag || (a.frag == b.frag && a.off + a.count < b.off)
  }

  predicate Touches(a: Target, b: Target) {
    a.frag == b.frag && b.off <= a.off + a.count
  }

  function Widen(a: Target, b: Target): Target
    requires Touches(a, b) && a.off <= b.off
  {
    var end := if a.off + a.count < b.off + b.count then b.off + b.count else a.off + a.count;
    a.(count := end - a.off)
  }

  lemma WidenIds(frags: seq<Fragment>, a: Target, b: Target)
    requires Touches(a, b) && a.off <= b.off && InBounds(frags, a) && InBounds(frags, b)
    ensures InBounds(frags, Widen(a, b)) && TargetIds(frags, Widen(a, b)) == TargetIds(frags, a) + TargetIds(frags, b)
  {
  }

  /** Join targets that overlap or touch. */
  method MergeTargets(frags: seq<Fragment>, sorted: seq<Target>) returns (merged: seq<Target>)
    requires TargetsAscend(sorted) && AllInBounds(frags, sorted)
    ensures Spaced(merged) && AllInBounds(frags, merged) && AllIds(frags, merged) == AllIds(frags, sorted)
  {
    merged := [];
    for i := 0 to |sorted|
      invariant AllInBounds(frags, sorted[..i]) && MergedTo(frags, merged, sorted, i)
      invariant merged != [] && i < |sorted| ==> TargetBefore(merged[|merged| - 1], sorted[i])
    {
      var t := sorted[i];
      MergeStep(frags, merged, sorted, i);
      if merged != [] && Touches(merged[|merged| - 1], t) {
        merged := merged[..|merged| - 1] + [Widen(merged[|merged| - 1], t)];
      } else {
        merged := merged + [t];
      }
    }
    assert sorted[..|sorted|] == sorted;
  }

  /** One more target merged, given that the next one does not come before it. */
  ghost predicate MergedTo(frags: seq<Fragment>, merged: seq<Target>, sorted: seq<Target>, i: nat)
    requires i <= |sorted| && AllInBounds(frags, sorted[..i])
  {
    Spaced(merged) && AllInBounds(frags, merged) && AllIds(frags, merged) == AllIds(frags, sorted[..i])
  }

  lemma MergeStep(frags: seq<Fragment>, merged: seq<Target>, sorted: seq<Target>, i: nat)
    requires i < |sorted| && TargetsAscend(sorted) && AllInBounds(frags, sorted) && AllInBounds(frags, sorted[..i])
    requires MergedTo(frags, merged, sorted, i)
    requires merged != [] ==> TargetBefore(merged[|merged| - 1], sorted[i])
    ensures AllInBounds(frags, sorted[..i + 1])
    ensures var last := |merged| - 1;
            var next := if merged != [] && Touches(merged[last], sorted[i])
                        then merged[..last] + [Widen(merged[last], sorted[i])] else merged + [sorted[i]];
            && MergedTo(frags, next, sorted, i + 1)
            && (i + 1 < |sorted| ==> TargetBefore(next[|next| - 1], sorted[i + 1]))
  {
    var last, t := |merged| - 1, sorted[i];
    assert sorted[..i + 1] == sorted[..i] + [t];
    AllIdsOne(frags, t);
    AllIdsConcat(frags, sorted[..i], [t]);
    if merged != [] && Touches(merged[last], t) {
      MergeTouching(frags, merged, t);
    } else {
      MergeClear(frags, merged, t);
    }
  }

  lemma MergeTouching(frags: seq<Fragment>, merged: seq<Target>, t: Target)
    requires Spaced(merged) && AllInBounds(frags, merged) && InBounds(frags, t)
    requires merged != [] && Touches(merged[|merged| - 1], t) && TargetBefore(merged[|merged| - 1], t)
    ensures var next := merged[..|merged| - 1] + [Widen(merged[|merged| - 1], t)];
            && Spaced(next) && AllInBounds(frags, next)
            && AllIds(frags, next) == AllIds(frags, merged) + TargetIds(frags, t)
  {
    var last := |merged| - 1;
    var w := Widen(merged[last], t);
    WidenIds(frags, merged[last], t);
    assert merged == merged[..last] + [merged[last]];
    AllIdsOne(frags, w);
    AllIdsOne(frags, merged[last]);
    AllIdsConcat(frags, merged[..last], [merged[last]]);
    AllIdsConcat(frags, merged[..last], [w]);
    var next := merged[..last] + [w];
    forall i, j | 0 <= i < j < |next|
      ensures Clear(next[i], next[j])
    {
      assert Clear(merged[i], merged[j]);
    }
  }

  lemma MergeClear(frags: seq<Fragment>, merged: seq<Target>, t: Target)
    requires Spaced(merged) && AllInBounds(frags, merged) && InBounds(frags, t)
    requires merged != [] ==> !Touches(merged[|merged| - 1], t) && TargetBefore(merged[|merged| - 1], t)
    ensures Spaced(merged + [t]) && AllInBounds(frags, merged + [t])
    ensures AllIds(frags, merged + [t]) == AllIds(frags, merged) + TargetIds(frags, t)
  {
    AllIdsOne(frags, t);
    AllIdsConcat(frags, merged, [t]);
    forall j | 0 <= j < |merged|
      ensures Clear(merged[j], t)
    {
      if j < |merged| - 1 { assert Clear(merged[j], merged[|merged| - 1]); }
    }
  }

  // ---- Editing from right to left ----------------------------------------

  /** Targets still to be marked find their items where they were. */
  ghost predicate StillThere(frags: seq<Fragment>, r: seq<Fragment>, targets: seq<Target>) {
    forall t :: t in targets ==>
      && InBounds(frags, t) && InBounds(r, t)
      && r[t.frag].origin == frags[t.frag].origin && r[t.frag].deletions == frags[t.frag].deletions
  }

  method ApplyTargets(frags: seq<Fragment>, merged: seq<Target>, d: Identity) returns (r: seq<Fragment>)
    requires NonEmptyRuns(frags) && Distinct(DocOf(frags)) && Spaced(merged) && AllInBounds(frags, merged)
    ensures NonEmptyRuns(r) && Items(r) == MarkIn(Items(frags), AllIds(frags, merged), d)
    ensures DelLists(r) <= DelLists(frags) + WithDeletion(DelLists(frags), d)
  {
    r := frags;
    var k := |merged|;
    assert merged[..k] == merged && merged[k..] == [];
    MarkInNone(Items(frags), AllIds(frags, []), d);
    while k > 0
      invariant k <= |merged| && NonEmptyRuns(r) && DocOf(r) == DocOf(frags)
      invariant AllInBounds(frags, merged[k..]) && Items(r) == MarkIn(Items(frags), AllIds(frags, merged[k..]), d)
      invariant StillThere(frags, r, merged[..k])
      invariant DelLists(r) <= DelLists(frags) + WithDeletion(DelLists(frags), d)
    {
      k := k - 1;
      var t := merged[k];
      assert t in merged[..k + 1];
      ghost var before := r;
      r := MarkPart(r, t.frag, t.off, t.count, d);
      ApplyStep(frags, before, merged, k, d);
      LeftAlone(frags, before, r, merged, k);
    }
    assert merged[0..] == merged;
  }

  ghost function WithDeletion(lists: set<seq<Identity>>, d: Identity): set<seq<Identity>> {
    set l | l in lists :: l + [d]
  }

  lemma ApplyStep(frags: seq<Fragment>, r: seq<Fragment>, merged: seq<Target>, k: nat, d: Identity)
    requires k < |merged| && AllInBounds(frags, merged) && AllInBounds(frags, merged[k + 1..])
    requires DocOf(r) == DocOf(frags) && Items(r) == MarkIn(Items(frags), AllIds(frags, merged[k + 1..]), d)
    requires StillThere(frags, r, merged[..k + 1])
    ensures AllInBounds(frags, merged[k..]) && InBounds(r, merged[k])
    ensures MarkIn(Items(r), TargetIds(r, merged[k]), d) == MarkIn(Items(frags), AllIds(frags, merged[k..]), d)
    ensures NodesOf(MarkIn(Items(r), TargetIds(r, merged[k]), d)) == DocOf(frags)
  {
    var t := merged[k];
    assert t in merged[..k + 1];
    assert merged[k..] == [t] + merged[k + 1..];
    AllIdsOne(frags, t);
    AllIdsConcat(frags, [t], merged[k + 1..]);
    MarkInTwice(Items(frags), AllIds(frags, merged[k + 1..]), TargetIds(frags, t), d);
    MarkInNodes(Items(r), TargetIds(r, t), d);
  }

  lemma LeftAlone(frags: seq<Fragment>, before: seq<Fragment>, r: seq<Fragment>, merged: seq<Target>, k: nat)
    requires k < |merged| && Spaced(merged) && StillThere(frags, before, merged[..k + 1])
    requires |r| >= |before| && SameBelow(before, r, merged[k].frag) && InBounds(before, merged[k])
    requires merged[k].off > 0 ==> !before[merged[k].frag].marker
                                   && r[merged[k].frag] == Prefix(before[merged[k].frag], merged[k].off)
    ensures StillThere(frags, r, merged[..k])
  {
    forall t | t in merged[..k]
      ensures InBounds(frags, t) && InBounds(r, t)
      ensures r[t.frag].origin == frags[t.frag].origin && r[t.frag].deletions == frags[t.frag].deletions
    {
      var j :| 0 <= j < k && merged[j] == t;
      assert Clear(merged[j], merged[k]);
      assert t == merged[..k + 1][j];
    }
  }

  /** The indexed form: resolve, sort, merge, edit from right to left. It marks
      what the scan marks, and no run twice. */
  method IndexedDeletions(frags: seq<Fragment>, index: RunIndex, runs: seq<DeletionRun>, d: Identity)
    returns (ok: bool, r: seq<Fragment>)
    requires NonEmptyRuns(frags) && Distinct(DocOf(frags)) && Coherent(frags, index)
    ensures ok && NonEmptyRuns(r) && Items(r) == Marked(Items(frags), runs, d)
    ensures DelLists(r) <= DelLists(frags) + WithDeletion(DelLists(frags), d)
  {
    var targets;
    ok, targets := ResolveAll(frags, index, runs);
    if !ok { return false, frags; }
    var sorted := SortTargets(targets);
    assert AllIds(frags, sorted) == AllIds(frags, targets);
    var merged := MergeTargets(frags, sorted);
    r := ApplyTargets(frags, merged, d);
  }

  /** Mark what the runs reach, by the index when there is a valid one. */
  method ApplyDeletionRuns(frags: seq<Fragment>, index: RunIndex, runs: seq<DeletionRun>, d: Identity) returns (r: seq<Fragment>)
    requires NonEmptyRuns(frags) && Distinct(DocOf(frags)) && (index.valid ==> Coherent(frags, index))
    ensures NonEmptyRuns(r) && Items(r) == Marked(Items(frags), runs, d)
    ensures index.valid ==> DelLists(r) <= DelLists(frags) + WithDeletion(DelLists(frags), d)
  {
    if index.valid {
      var ok;
      ok, r := IndexedDeletions(frags, index, runs, d);
      if ok { return; }
    }
    r := ScanDeletions(frags, runs, d);
  }
}
