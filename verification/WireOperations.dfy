/** Operations as the codec holds them, and the test that an edit's inserted runs
    tile the interval of counters it reserved. */
module WireOperations {
  import opened Ids
  import opened Bytes
  import opened Clock
  import opened VersionVectors
  import opened FugueOrder
  import opened Sorting
  import opened Utf

  type Word32 = n: nat | n < U32

  /** Sixty-four unsigned bits: every operation on these is shown not to wrap. */
  newtype Word64 = n: int | 0 <= n < 0x1_0000_0000_0000_0000

  const LAST_COUNTER: Word64 := 0xFFFF_FFFF_FFFF_FFFE
  const MAX_DECLARED: nat := 0x1_0000

  /** An inserted run: the first item's identity and link, its text as bytes, and
      how many items it says it has. */
  datatype WireRun = WireRun(origin: Identity, link: Link, content: seq<Byte>, length: Word32, marker: bool)

  datatype Span = Span(start: Word32, end: Word32)

  datatype Counted = Counted(id: Identity, count: Word32)

  datatype WireOperation =
    | WireEdit(
        timestamp: Identity,
        version: seq<Pair>,
        deletionId: Identity,
        markerEdit: bool,
        ranges: seq<Span>,
        newText: seq<seq<Byte>>,
        inserted: seq<WireRun>,
        deleted: seq<Counted>)
    | WireUndo(timestamp: Identity, version: seq<Pair>, counts: seq<Counted>)

  function Head(ps: seq<Pair>, actor: ActorId): nat {
    if ps == [] then 0 else if ps[|ps| - 1].actor == actor then ps[|ps| - 1].counter else Head(ps[..|ps| - 1], actor)
  }

  predicate Seen(ps: seq<Pair>, id: Identity) {
    Head(ps, id.actor) >= id.counter
  }

  lemma {:induction false} HeadIsLookup(ps: seq<Pair>, actor: ActorId)
    requires Canonical(ps)
    ensures Head(ps, actor) == Get(ViewOf(ps), actor)
  {
    if ps != [] {
      DropLast(ps, actor);
      LookupAt(ps, |ps| - 1);
      HeadIsLookup(ps[..|ps| - 1], actor);
    }
  }

  /** The half-open interval does not leave the counter's width. */
  predicate IntervalFits(start: nat, count: nat) {
    start + count <= U64 - 1
  }

  predicate LinkAllowed(link: Link, frontier: seq<Pair>) {
    && (link.parent.Some? ==> Usable(link.parent.value) && Seen(frontier, link.parent.value))
    && (link.rightOrigin.Some? ==> Usable(link.rightOrigin.value) && Seen(frontier, link.rightOrigin.value))
    && (link.side.Left? ==> link.parent.Some? && link.rightOrigin == link.parent)
  }

  /** A marker edit inserts or removes exactly one marker. */
  predicate MarkerShape(o: WireOperation)
    requires o.WireEdit?
  {
    o.markerEdit ==>
      && o.ranges == [] && o.newText == []
      && (|| (|o.inserted| == 1 && o.deleted == [] && o.inserted[0].marker)
          || (o.inserted == [] && |o.deleted| == 1 && o.deleted[0].count == 1))
  }

  predicate RangesOrdered(rs: seq<Span>) {
    && (forall i :: 0 <= i < |rs| ==> rs[i].start <= rs[i].end)
    && (forall i :: 0 < i < |rs| ==> rs[i - 1].end <= rs[i].start)
  }

  /** The bytes are the encoding of that many scalars. */
  ghost predicate Holds(bytes: seq<Byte>, scalars: nat) {
    exists cs :: Utf8(cs) == bytes && |cs| == scalars
  }

  ghost predicate RunFits(r: WireRun, o: WireOperation)
    requires o.WireEdit?
  {
    && Usable(r.origin)
    && IsUtf8(r.content)
    && (r.marker ==> o.markerEdit && r.length == 1 && r.content == [])
    && (!r.marker ==> Holds(r.content, r.length))
    && r.length > 0
    && IntervalFits(r.origin.counter, r.length)
    && LinkAllowed(r.link, o.version)
  }

  predicate DeletionFits(d: Counted) {
    d.count > 0 && Usable(d.id) && IntervalFits(d.id.counter, d.count)
  }

  /** What validation accepts of an edit whose own frontier is already known. */
  ghost predicate EditFits(o: WireOperation)
    requires o.WireEdit?
  {
    && MarkerShape(o)
    && |o.ranges| <= MAX_DECLARED && |o.inserted| <= MAX_DECLARED && |o.deleted| <= MAX_DECLARED
    && Usable(o.timestamp) && Usable(o.deletionId)
    && |o.ranges| == |o.newText|
    && RangesOrdered(o.ranges)
    && (forall i :: 0 <= i < |o.newText| ==> IsUtf8(o.newText[i]))
    && (forall i :: 0 <= i < |o.inserted| ==> RunFits(o.inserted[i], o))
    && (forall i :: 0 <= i < |o.deleted| ==> DeletionFits(o.deleted[i]))
  }

  method CheckLink(link: Link, frontier: seq<Pair>) returns (ok: bool)
    ensures ok <==> LinkAllowed(link, frontier)
  {
    if link.parent.Some? && !(Usable(link.parent.value) && Seen(frontier, link.parent.value)) {
      return false;
    }
    if link.rightOrigin.Some? && !(Usable(link.rightOrigin.value) && Seen(frontier, link.rightOrigin.value)) {
      return false;
    }
    if link.side.Left? && (link.parent.None? || link.rightOrigin.None? || link.parent != link.rightOrigin) {
      return false;
    }
    return true;
  }

  method CheckRanges(ranges: seq<Span>) returns (ok: bool)
    ensures ok <==> RangesOrdered(ranges)
  {
    var i := 0;
    while i < |ranges|
      invariant i <= |ranges|
      invariant forall k :: 0 <= k < i ==> ranges[k].start <= ranges[k].end
      invariant forall k :: 0 < k < i ==> ranges[k - 1].end <= ranges[k].start
    {
      if ranges[i].start > ranges[i].end {
        return false;
      }
      if i > 0 {
        if ranges[i].start < ranges[i - 1].start {
          assert ranges[i - 1].end > ranges[i].start;
          return false;
        }
        if ranges[i].start < ranges[i - 1].end {
          return false;
        }
      }
      i := i + 1;
    }
    return true;
  }

  /** A byte string holds one number of scalars. */
  lemma {:induction false} HoldsOnce(bytes: seq<Byte>, m: nat, n: nat)
    requires Holds(bytes, m) && Holds(bytes, n)
    ensures m == n
  {
    var cs :| Utf8(cs) == bytes && |cs| == m;
    var ds :| Utf8(ds) == bytes && |ds| == n;
    Utf8IsInjective(cs, ds);
  }

  method CheckRun(r: WireRun, o: WireOperation) returns (ok: bool)
    requires o.WireEdit?
    ensures ok <==> RunFits(r, o)
  {
    hide Utf8, LinkAllowed;
    if !Usable(r.origin) {
      return false;
    }
    var scalars := Utf8Length(r.content);
    if scalars.Err? {
      return false;
    }
    assert Holds(r.content, scalars.value) && IsUtf8(r.content);
    if r.marker && (!o.markerEdit || r.length != 1 || r.content != []) {
      return false;
    }
    if !r.marker && scalars.value != r.length {
      if Holds(r.content, r.length) {
        HoldsOnce(r.content, scalars.value, r.length);
      }
      return false;
    }
    if r.length == 0 {
      return false;
    }
    if !IntervalFits(r.origin.counter, r.length) {
      return false;
    }
    ok := CheckLink(r.link, o.version);
  }

  method ValidateEdit(o: WireOperation) returns (ok: bool)
    requires o.WireEdit?
    ensures ok <==> EditFits(o)
  {
    hide Utf8, RunFits, MarkerShape, RangesOrdered;
    if !MarkerShape(o) {
      return false;
    }
    if |o.ranges| > MAX_DECLARED || |o.inserted| > MAX_DECLARED || |o.deleted| > MAX_DECLARED {
      return false;
    }
    if !Usable(o.timestamp) || !Usable(o.deletionId) || |o.ranges| != |o.newText| {
      return false;
    }
    var ordered := CheckRanges(o.ranges);
    if !ordered {
      return false;
    }
    var i := 0;
    while i < |o.newText|
      invariant i <= |o.newText|
      invariant forall k :: 0 <= k < i ==> IsUtf8(o.newText[k])
    {
      var error := ValidateUtf8(o.newText[i]);
      if error.Some? {
        assert !IsUtf8(o.newText[i]);
        return false;
      }
      i := i + 1;
    }
    i := 0;
    while i < |o.inserted|
      invariant i <= |o.inserted|
      invariant forall k :: 0 <= k < i ==> RunFits(o.inserted[k], o)
    {
      var fits := CheckRun(o.inserted[i], o);
      if !fits {
        return false;
      }
      i := i + 1;
    }
    i := 0;
    while i < |o.deleted|
      invariant i <= |o.deleted|
      invariant forall k :: 0 <= k < i ==> DeletionFits(o.deleted[k])
    {
      if !DeletionFits(o.deleted[i]) {
        return false;
      }
      i := i + 1;
    }
    return true;
  }

  // ---- Tiling ----

  /** Counters [start, start + count). */
  datatype Interval = Interval(start: Word64, count: Word64)

  predicate Contains(i: Interval, c: int) {
    i.start as int <= c < i.start as int + i.count as int
  }

  /** How many of the intervals contain a counter. */
  function Coverage(xs: seq<Interval>, c: int): nat {
    if xs == [] then 0 else Coverage(xs[..|xs| - 1], c) + if Contains(xs[|xs| - 1], c) then 1 else 0
  }

  /** Every counter from `first` up to `end` lies in exactly one interval, and no
      other counter lies in any. */
  ghost predicate Tiles(xs: seq<Interval>, first: int, end: int) {
    forall c: int :: Coverage(xs, c) == if first <= c < end then 1 else 0
  }

  function IntervalsOf(rs: seq<WireRun>): (xs: seq<Interval>)
    requires forall i :: 0 <= i < |rs| ==> rs[i].origin.counter < U64
    ensures |xs| == |rs|
  {
    seq(|rs|, i requires 0 <= i < |rs| => Interval(rs[i].origin.counter as Word64, rs[i].length as Word64))
  }

  function TotalLength(rs: seq<WireRun>): nat {
    if rs == [] then 0 else TotalLength(rs[..|rs| - 1]) + rs[|rs| - 1].length
  }

  lemma {:induction false} TotalGrows(rs: seq<WireRun>, i: nat)
    requires i <= |rs|
    ensures TotalLength(rs[..i]) <= TotalLength(rs)
    decreases |rs| - i
  {
    if i == |rs| {
      assert rs[..i] == rs;
    } else {
      assert rs[..i + 1][..i] == rs[..i];
      TotalGrows(rs, i + 1);
    }
  }

  /** What an edit must be to have a counter interval of its own: valid, its runs
      its actor's, and the runs' counters exactly those between the frontier and
      the timestamp. */
  ghost predicate Allocates(o: WireOperation)
    requires o.WireEdit?
  {
    && Issuable(o.timestamp) && o.deletionId == o.timestamp && EditFits(o)
    && (forall i :: 0 <= i < |o.inserted| ==> o.inserted[i].origin.actor == o.timestamp.actor)
    && Head(o.version, o.timestamp.actor) < o.timestamp.counter - TotalLength(o.inserted)
    && (forall i :: 0 <= i < |o.inserted| ==> o.inserted[i].origin.counter < U64)
    && Tiles(IntervalsOf(o.inserted), o.timestamp.counter - TotalLength(o.inserted), o.timestamp.counter)
  }

  predicate IntervalLess(a: Interval, b: Interval) {
    a.start < b.start || (a.start == b.start && a.count <= b.count)
  }

  predicate SortedIntervals(xs: seq<Interval>) {
    forall i, j :: 0 <= i < j < |xs| ==> IntervalLess(xs[i], xs[j])
  }

  lemma {:induction false} CoverageConcat(a: seq<Interval>, b: seq<Interval>, c: int)
    ensures Coverage(a + b, c) == Coverage(a, c) + Coverage(b, c)
  {
    if b == [] {
      assert a + b == a;
    } else {
      assert (a + b)[..|a + b| - 1] == a + b[..|b| - 1];
      CoverageConcat(a, b[..|b| - 1], c);
    }
  }

  lemma {:induction false} CoverageOne(x: Interval, c: int)
    ensures Coverage([x], c) == if Contains(x, c) then 1 else 0
  {
    assert [x][..0] == [];
  }

  lemma {:induction false} CoveredOnce(xs: seq<Interval>, k: nat, c: int)
    requires k < |xs|
    ensures Coverage(xs, c) == Coverage(xs[..k], c) + (if Contains(xs[k], c) then 1 else 0) + Coverage(xs[k + 1..], c)
  {
    assert xs == xs[..k] + ([xs[k]] + xs[k + 1..]);
    CoverageConcat(xs[..k], [xs[k]] + xs[k + 1..], c);
    CoverageConcat([xs[k]], xs[k + 1..], c);
    CoverageOne(xs[k], c);
  }

  lemma {:induction false} CoveredByNone(xs: seq<Interval>, c: int)
    requires forall i :: 0 <= i < |xs| ==> !Contains(xs[i], c)
    ensures Coverage(xs, c) == 0
  {
    if xs != [] {
      CoveredByNone(xs[..|xs| - 1], c);
    }
  }

  function IntervalKey(i: Interval): SortKey {
    SortKey(i.start as int, i.count as int)
  }

  lemma {:induction false} CoverageRearranged(xs: seq<Interval>, ys: seq<Interval>, c: int)
    requires multiset(xs) == multiset(ys)
    ensures Coverage(xs, c) == Coverage(ys, c)
    decreases |xs|
  {
    hide *;
    if xs == [] {
      assert |multiset(ys)| == |ys|;
      assert ys == xs;
    } else {
      assert xs[0] in multiset(ys);
      var k :| 0 <= k < |ys| && ys[k] == xs[0];
      Without(xs, 0);
      Without(ys, k);
      CoverageRearranged(xs[..0] + xs[1..], ys[..k] + ys[k + 1..], c);
      CoverageConcat(xs[..0], xs[1..], c);
      CoverageConcat(ys[..k], ys[k + 1..], c);
      CoveredOnce(xs, 0, c);
      CoveredOnce(ys, k, c);
    }
  }

  lemma {:induction false} Without<T>(xs: seq<T>, k: nat)
    requires k < |xs|
    ensures multiset(xs[..k] + xs[k + 1..]) == multiset(xs) - multiset{xs[k]}
  {
    assert xs == xs[..k] + ([xs[k]] + xs[k + 1..]);
  }

  method SortIntervals(xs: seq<Interval>) returns (ys: seq<Interval>)
    ensures SortedIntervals(ys) && |ys| == |xs|
    ensures forall y :: y in ys ==> y in xs
    ensures forall c: int :: Coverage(ys, c) == Coverage(xs, c)
  {
    ys := SortBy(xs, IntervalKey);
    forall i, j | 0 <= i < j < |ys|
      ensures IntervalLess(ys[i], ys[j])
    {
      assert !KeyBelow(IntervalKey(ys[j]), IntervalKey(ys[i]));
    }
    forall c: int
      ensures Coverage(ys, c) == Coverage(xs, c)
    {
      CoverageRearranged(xs, ys, c);
    }
  }

  /** The sweep's next interval starts where the last one ended, or the intervals
      do not tile. */
  lemma {:induction false} SweepStops(ys: seq<Interval>, k: nat, first: int, next: int, end: int)
    requires SortedIntervals(ys) && k < |ys| && first <= next <= end
    requires forall i :: 0 <= i < |ys| ==> ys[i].count > 0
    requires Tiles(ys[..k], first, next)
    requires ys[k].start as int != next || ys[k].count as int > end - next
    ensures !Tiles(ys, first, end)
  {
    var start := ys[k].start as int;
    if start < next {
      CoveredOnce(ys, k, start);
    } else if start > next {
      CoveredOnce(ys, k, start);
      CoveredOnce(ys, k, next);
      var later := ys[k + 1..];
      forall i | 0 <= i < |later| ensures !Contains(later[i], next) {
        assert IntervalLess(ys[k], ys[k + 1 + i]);
      }
      CoveredByNone(later, next);
      assert Coverage(ys[..k], next) == 0;
    } else {
      CoveredOnce(ys, k, end);
    }
  }

  lemma {:induction false} SweepSteps(ys: seq<Interval>, k: nat, first: int, next: int)
    requires k < |ys| && first <= next && Tiles(ys[..k], first, next) && ys[k].start as int == next
    ensures Tiles(ys[..k + 1], first, next + ys[k].count as int)
  {
    var zs := ys[..k + 1];
    assert zs == ys[..k] + [ys[k]];
    forall c: int ensures Coverage(zs, c) == if first <= c < next + ys[k].count as int then 1 else 0 {
      CoverageConcat(ys[..k], [ys[k]], c);
      CoverageOne(ys[k], c);
      assert Coverage(ys[..k], c) == if first <= c < next then 1 else 0;
    }
  }

  lemma {:induction false} TilesEnd(ys: seq<Interval>, first: int, next: int, end: int)
    requires first <= next < end && Tiles(ys, first, next)
    ensures !Tiles(ys, first, end)
  {
    assert Coverage(ys, next) == 0;
  }

  lemma {:induction false} SameTiles(xs: seq<Interval>, ys: seq<Interval>, first: int, end: int)
    requires forall c: int :: Coverage(ys, c) == Coverage(xs, c)
    ensures Tiles(xs, first, end) <==> Tiles(ys, first, end)
  {
    if Tiles(ys, first, end) {
      forall c: int ensures Coverage(xs, c) == if first <= c < end then 1 else 0 {
        assert Coverage(ys, c) == Coverage(xs, c);
      }
    }
  }

  /** The sort and the sweep: accepted exactly when the intervals tile. */
  method SweepIntervals(xs: seq<Interval>, first: Word64, end: Word64) returns (ok: bool)
    requires first <= end
    requires forall i :: 0 <= i < |xs| ==> xs[i].count > 0
    ensures ok <==> Tiles(xs, first as int, end as int)
  {
    var ys := SortIntervals(xs);
    forall i | 0 <= i < |ys| ensures ys[i].count > 0 {
      assert ys[i] in ys;
      var j :| 0 <= j < |xs| && xs[j] == ys[i];
    }
    SameTiles(xs, ys, first as int, end as int);
    hide Tiles, Coverage, SortedIntervals;
    var next := first;
    var k := 0;
    NothingTiles(ys, first as int);
    while k < |ys|
      invariant k <= |ys| && first <= next <= end
      invariant Tiles(ys[..k], first as int, next as int)
    {
      if ys[k].start != next || ys[k].count > end - next {
        SweepStops(ys, k, first as int, next as int, end as int);
        return false;
      }
      SweepSteps(ys, k, first as int, next as int);
      next := next + ys[k].count;
      k := k + 1;
    }
    assert ys[..k] == ys;
    if next != end {
      TilesEnd(ys, first as int, next as int, end as int);
      return false;
    }
    return true;
  }

  lemma {:induction false} NothingTiles(ys: seq<Interval>, first: int)
    ensures Tiles(ys[..0], first, first)
  {
  }

  /** The value accepted is the number of counters the edit reserved, its own
      included; every sum and difference on the way stays within 64 bits. */
  method EditAllocation(o: WireOperation) returns (r: Option<Word64>)
    requires o.WireEdit?
    ensures r.Some? <==> Allocates(o)
    ensures r.Some? ==> r.value as int == TotalLength(o.inserted) + 1
  {
    hide EditFits, Tiles, TotalLength;
    if !Issuable(o.timestamp) || o.deletionId != o.timestamp {
      return None;
    }
    var valid := ValidateEdit(o);
    if !valid {
      return None;
    }
    FitsParts(o);
    var scalars: Word64 := 0;
    var i := 0;
    TotalParts(o.inserted, 0);
    while i < |o.inserted|
      invariant i <= |o.inserted| && scalars as int == TotalLength(o.inserted[..i])
      invariant forall k :: 0 <= k < i ==> o.inserted[k].origin.actor == o.timestamp.actor
    {
      TotalParts(o.inserted, i);
      TotalGrows(o.inserted, i + 1);
      var run := o.inserted[i];
      if run.origin.actor != o.timestamp.actor || run.length == 0 || scalars > LAST_COUNTER - run.length as Word64 {
        return None;
      }
      scalars := scalars + run.length as Word64;
      i := i + 1;
    }
    assert o.inserted[..i] == o.inserted;
    var counter := o.timestamp.counter as Word64;
    if scalars >= counter {
      return None;
    }
    var first := counter - scalars;
    if Head(o.version, o.timestamp.actor) >= first as nat {
      return None;
    }
    var swept := SweepIntervals(IntervalsOf(o.inserted), first, counter);
    if !swept {
      return None;
    }
    return Some(scalars + 1);
  }

  lemma {:induction false} TotalParts(rs: seq<WireRun>, i: nat)
    ensures TotalLength(rs[..0]) == 0
    ensures i < |rs| ==> TotalLength(rs[..i + 1]) == TotalLength(rs[..i]) + rs[i].length
  {
    if i < |rs| {
      assert rs[..i + 1][..i] == rs[..i];
    }
  }

  lemma {:induction false} FitsParts(o: WireOperation)
    requires o.WireEdit? && EditFits(o)
    ensures forall i :: 0 <= i < |o.inserted| ==> o.inserted[i].length > 0 && o.inserted[i].origin.counter < U64
  {
    forall i | 0 <= i < |o.inserted| ensures o.inserted[i].length > 0 && o.inserted[i].origin.counter < U64 {
      assert RunFits(o.inserted[i], o);
    }
  }

  /** What acceptance means for the runs: each counter between the frontier and
      the timestamp belongs to exactly one run, so no two runs share an item and
      none aliases anything the author had already observed. */
  lemma {:induction false} RunsAreDisjoint(o: WireOperation, i: nat, j: nat, c: nat)
    requires o.WireEdit? && Allocates(o) && Canonical(o.version)
    requires i < |o.inserted| && j < |o.inserted|
    requires o.inserted[i].origin.counter <= c < o.inserted[i].origin.counter + o.inserted[i].length
    requires o.inserted[j].origin.counter <= c < o.inserted[j].origin.counter + o.inserted[j].length
    ensures i == j
    ensures Get(ViewOf(o.version), o.timestamp.actor) < c < o.timestamp.counter
  {
    hide EditFits;
    var xs := IntervalsOf(o.inserted);
    HeadIsLookup(o.version, o.timestamp.actor);
    CoveredOnce(xs, i, c);
    if i != j {
      var k := if i < j then i else j;
      var l := if i < j then j else i;
      CoveredOnce(xs, k, c);
      assert xs[k + 1..][l - k - 1] == xs[l];
      CoveredOnce(xs[k + 1..], l - k - 1, c);
    }
  }
}
