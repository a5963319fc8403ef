/** An operation of the engine and the wire operation that carries it. What the codec
    tests of the one is what a receiver tests of the other, and in an honest history
    the codec refuses an operation for its size only. */
module EngineFrames {
  import opened Ids
  import opened Bytes
  import opened VersionVectors
  import opened FugueOrder
  import opened Fragments
  import opened Histories
  import opened VisibleText
  import Clock
  import Utf
  import Json
  import WireOperations
  import OperationFrames
  import FrameLimits
  import OperationLaws

  /** The frontier on the wire is the array of the operation's version. */
  ghost predicate CarriesVersion(ps: seq<Clock.Pair>, v: Version) {
    Clock.Canonical(ps) && Clock.ViewOf(ps) == v
  }

  /** The wire operation is this undo, target by target. */
  ghost predicate CarriesUndo(w: WireOperations.WireOperation, o: Operation) {
    && w.WireUndo? && o.Undo? && w.timestamp == o.timestamp && CarriesVersion(w.version, o.version)
    && |w.counts| == |o.counts|
    && forall i :: 0 <= i < |w.counts| ==> w.counts[i].id == o.counts[i].target && w.counts[i].count == o.counts[i].count
  }

  /** The wire operation is this edit, run by run, with a text for each range. */
  ghost predicate CarriesEdit(w: WireOperations.WireOperation, o: Operation) {
    && w.WireEdit? && o.Edit? && w.timestamp == o.timestamp == w.deletionId && CarriesVersion(w.version, o.version)
    && w.markerEdit == o.markerEdit && |w.ranges| == |w.newText| == o.ranges
    && |w.inserted| == |o.inserts| && |w.deleted| == |o.deletions|
    && (forall i :: 0 <= i < |w.inserted| ==> CarriesRun(w.inserted[i], o.inserts[i]))
    && forall i :: 0 <= i < |w.deleted| ==> w.deleted[i].id == o.deletions[i].first && w.deleted[i].count == o.deletions[i].count
  }

  ghost predicate CarriesRun(w: WireOperations.WireRun, r: InsertedRun) {
    && w.origin == r.origin && w.link == r.link && w.content == Utf.Utf8(r.text) && w.length == RunLength(r) && w.marker == r.marker
  }

  // ---- The same tests ------------------------------------------------------

  /** The hints of an edit: ordered ranges, and texts in UTF-8. */
  ghost predicate HintsFit(w: WireOperations.WireOperation)
    requires w.WireEdit?
  {
    WireOperations.RangesOrdered(w.ranges) && forall i :: 0 <= i < |w.newText| ==> Utf.IsUtf8(w.newText[i])
  }

  /** No run leaves the width of a counter. */
  predicate CountersFit(o: Operation)
    requires o.Edit?
  {
    && (forall k :: 0 <= k < |o.inserts| ==> WireOperations.IntervalFits(o.inserts[k].origin.counter, RunLength(o.inserts[k])))
    && (forall k :: 0 <= k < |o.deletions| ==> WireOperations.IntervalFits(o.deletions[k].first.counter, o.deletions[k].count))
  }

  lemma {:induction false} SeenIsObserved(ps: seq<Clock.Pair>, v: Version, id: Identity)
    requires CarriesVersion(ps, v)
    ensures WireOperations.Seen(ps, id) <==> Observed(v, id)
  {
    WireOperations.HeadIsLookup(ps, id.actor);
  }

  lemma {:induction false} SameLink(ps: seq<Clock.Pair>, v: Version, link: Link)
    requires CarriesVersion(ps, v)
    ensures WireOperations.LinkAllowed(link, ps) <==> LinkAccepted(link, v)
  {
    if link.parent.Some? { SeenIsObserved(ps, v, link.parent.value); }
    if link.rightOrigin.Some? { SeenIsObserved(ps, v, link.rightOrigin.value); }
    hide CarriesVersion, WireOperations.Seen, Observed;
  }

  lemma {:induction false} EmptyIsEmpty(text: seq<Scalar>)
    ensures Utf.Utf8(text) == [] <==> text == []
  {
  }

  /** What the codec tests of a run is what a receiver tests, and the width. */
  lemma {:induction false} SameRun(w: WireOperations.WireOperation, r: WireOperations.WireRun, o: Operation, k: nat)
    requires CarriesEdit(w, o) && k < |o.inserts| && r == w.inserted[k]
    ensures WireOperations.RunFits(r, w) <==>
              var s := o.inserts[k];
              && Usable(s.origin) && RunLength(s) > 0 && (s.marker ==> o.markerEdit && s.text == []) && LinkAccepted(s.link, o.version)
              && WireOperations.IntervalFits(s.origin.counter, RunLength(s))
  {
    var s := o.inserts[k];
    assert CarriesRun(r, s);
    SameLink(w.version, o.version, s.link);
    EmptyIsEmpty(s.text);
    assert Utf.IsUtf8(r.content);
    assert !s.marker ==> WireOperations.Holds(r.content, r.length);
    hide Utf.Utf8, WireOperations.LinkAllowed, LinkAccepted, WireOperations.Holds, Utf.IsUtf8, CarriesVersion, CarriesEdit;
  }

  /** The codec accepts an edit exactly if receivers do, apart from its hints and the
      width of counters. */
  lemma {:induction false} EditFitsAccepted(w: WireOperations.WireOperation, o: Operation)
    requires CarriesEdit(w, o)
    ensures WireOperations.EditFits(w) <==> Accepted(o) && HintsFit(w) && CountersFit(o)
  {
    forall k | 0 <= k < |o.inserts|
      ensures WireOperations.RunFits(w.inserted[k], w) <==>
                var s := o.inserts[k];
                && Usable(s.origin) && RunLength(s) > 0 && (s.marker ==> o.markerEdit && s.text == []) && LinkAccepted(s.link, o.version)
                && WireOperations.IntervalFits(s.origin.counter, RunLength(s))
    {
      SameRun(w, w.inserted[k], o, k);
    }
    SameMarkerShape(w, o);
    hide WireOperations.RunFits, LinkAccepted, CarriesVersion, CarriesRun, Utf.IsUtf8, MarkerShape, WireOperations.MarkerShape,
      WireOperations.RangesOrdered;
  }

  lemma {:induction false} SameMarkerShape(w: WireOperations.WireOperation, o: Operation)
    requires CarriesEdit(w, o)
    ensures WireOperations.MarkerShape(w) <==> MarkerShape(o)
  {
    assert |o.inserts| == 1 ==> CarriesRun(w.inserted[0], o.inserts[0]);
    hide CarriesVersion, Utf.Utf8;
  }

  // ---- Operations of an honest history -------------------------------------

  lemma {:induction false} DeletionIsOld(u: set<Operation>, o: Operation, k: nat)
    requires Honest(u) && o in u && o.Edit? && k < |o.deletions|
    ensures o.deletions[k].count > 0 && o.deletions[k].first.counter + o.deletions[k].count <= o.timestamp.counter
    ensures Usable(o.deletions[k].first)
  {
    var d := o.deletions[k];
    assert WellMinted(o, FirstCounter(o)) && DeletionsKnown(u, o);
    var last := Identity(d.first.actor, d.first.counter + d.count - 1);
    assert InDeletion(d, last) && InDeletion(d, d.first);
    assert Deletes(o, last) && Deletes(o, d.first);
    KnownIsOlder(u, o, last);
    KnownIsUsable(u, o, d.first);
    hide Honest, DeletionsKnown, Knows;
  }

  /** An honest edit reserves one interval below its timestamp, and names only what
      is older, so nothing of it is wider than the timestamp. */
  lemma {:induction false} HonestCounters(u: set<Operation>, o: Operation)
    requires Honest(u) && o in u && o.Edit? && Issuable(o.timestamp)
    ensures CountersFit(o)
  {
    assert WellMinted(o, FirstCounter(o));
    forall k | 0 <= k < |o.deletions|
      ensures WireOperations.IntervalFits(o.deletions[k].first.counter, o.deletions[k].count)
    {
      DeletionIsOld(u, o, k);
    }
    hide Honest;
  }

  /** Every entry of the frontier names an operation that came before. */
  lemma {:induction false} HonestFrontier(u: set<Operation>, ps: seq<Clock.Pair>, o: Operation)
    requires Honest(u) && o in u && CarriesVersion(ps, o.version)
    ensures forall i :: 0 <= i < |ps| ==> Usable(Identity(ps[i].actor, ps[i].counter)) && ps[i].counter < FirstCounter(o)
  {
    assert WellMinted(o, FirstCounter(o));
    forall i | 0 <= i < |ps|
      ensures Usable(Identity(ps[i].actor, ps[i].counter)) && ps[i].counter < FirstCounter(o)
    {
      Clock.LookupAt(ps, i);
      var a := ps[i].actor;
      assert Get(o.version, a) == ps[i].counter;
      var p :| p in u && p.timestamp == Identity(a, o.version[a]);
      assert WellMinted(p, FirstCounter(p));
    }
  }

  lemma {:induction false} HonestHead(u: set<Operation>, ps: seq<Clock.Pair>, o: Operation)
    requires Honest(u) && o in u && CarriesVersion(ps, o.version)
    ensures WireOperations.Head(ps, o.timestamp.actor) < FirstCounter(o)
  {
    WireOperations.HeadIsLookup(ps, o.timestamp.actor);
    assert WellMinted(o, FirstCounter(o));
  }

  lemma {:induction false} HonestLinks(u: set<Operation>, o: Operation, k: nat)
    requires Honest(u) && o in u && o.Edit? && k < |o.inserts| && Issuable(o.timestamp)
    ensures Issuable(o.inserts[k].origin) && OperationFrames.LinkIssuable(o.inserts[k].link)
  {
    assert WellMinted(o, FirstCounter(o)) && LinksKnown(u, o);
    var link := o.inserts[k].link;
    if link.parent.Some? { KnownIsIssuable(u, o, link.parent.value); }
    if link.rightOrigin.Some? { KnownIsIssuable(u, o, link.rightOrigin.value); }
  }

  lemma {:induction false} KnownIsIssuable(u: set<Operation>, o: Operation, id: Identity)
    requires Honest(u) && o in u && Knows(u, o, id) && Issuable(o.timestamp)
    ensures Issuable(id)
  {
    KnownIsUsable(u, o, id);
    KnownIsOlder(u, o, id);
    assert WellMinted(o, FirstCounter(o));
    hide Honest, Knows;
  }

  // ---- Disjoint runs of the right length tile --------------------------------

  /** Counters from `lo` on, below `hi`, counted once for each interval they are in. */
  function Covered(xs: seq<WireOperations.Interval>, lo: int, hi: int): nat
    decreases hi - lo
  {
    if lo >= hi then 0 else Covered(xs, lo, hi - 1) + WireOperations.Coverage(xs, hi - 1)
  }

  lemma {:induction false} CoveredAdds(xs: seq<WireOperations.Interval>, x: WireOperations.Interval, lo: int, hi: int)
    requires lo <= hi
    ensures Covered(xs + [x], lo, hi) == Covered(xs, lo, hi) + Covered([x], lo, hi)
    decreases hi - lo
  {
    if lo < hi {
      CoveredAdds(xs, x, lo, hi - 1);
      WireOperations.CoverageConcat(xs, [x], hi - 1);
    }
  }

  lemma {:induction false} CoveredOne(x: WireOperations.Interval, lo: int, hi: int)
    requires lo <= hi && lo <= x.start as int
    ensures Covered([x], lo, hi)
            == if hi <= x.start as int then 0 else if hi <= x.start as int + x.count as int then hi - x.start as int else x.count as int
    decreases hi - lo
  {
    if lo < hi {
      CoveredOne(x, lo, hi - 1);
      WireOperations.CoverageOne(x, hi - 1);
    }
  }

  lemma {:induction false} CoveredNone(lo: int, hi: int)
    ensures Covered([], lo, hi) == 0
    decreases hi - lo
  {
    if lo < hi { CoveredNone(lo, hi - 1); }
  }

  function TotalCount(xs: seq<WireOperations.Interval>): nat {
    if xs == [] then 0 else TotalCount(xs[..|xs| - 1]) + xs[|xs| - 1].count as int
  }

  ghost predicate Inside(xs: seq<WireOperations.Interval>, lo: int, hi: int) {
    forall i :: 0 <= i < |xs| ==> lo <= xs[i].start as int && xs[i].start as int + xs[i].count as int <= hi
  }

  ghost predicate Apart(xs: seq<WireOperations.Interval>) {
    forall i, j, c: int :: 0 <= i < j < |xs| ==> !(WireOperations.Contains(xs[i], c) && WireOperations.Contains(xs[j], c))
  }

  lemma {:induction false} CoveredTotal(xs: seq<WireOperations.Interval>, lo: int, hi: int)
    requires lo <= hi && Inside(xs, lo, hi)
    ensures Covered(xs, lo, hi) == TotalCount(xs)
  {
    if xs == [] {
      CoveredNone(lo, hi);
    } else {
      var init, last := xs[..|xs| - 1], xs[|xs| - 1];
      CoveredTotal(init, lo, hi);
      assert xs == init + [last];
      CoveredAdds(init, last, lo, hi);
      CoveredOne(last, lo, hi);
    }
  }

  lemma {:induction false} AtMostOnce(xs: seq<WireOperations.Interval>, c: int)
    requires Apart(xs)
    ensures WireOperations.Coverage(xs, c) <= 1
  {
    if xs != [] {
      var init, last := xs[..|xs| - 1], xs[|xs| - 1];
      AtMostOnce(init, c);
      if WireOperations.Contains(last, c) {
        forall i | 0 <= i < |init|
          ensures !WireOperations.Contains(init[i], c)
        {
          assert xs[i] == init[i];
        }
        WireOperations.CoveredByNone(init, c);
      }
    }
  }

  lemma {:induction false} EachOnce(xs: seq<WireOperations.Interval>, lo: int, hi: int, c: int)
    requires Apart(xs) && lo <= c < hi && Covered(xs, lo, hi) >= hi - lo
    ensures WireOperations.Coverage(xs, c) == 1
    decreases hi - lo
  {
    AtMostOnce(xs, hi - 1);
    AtMostOnce(xs, c);
    if c < hi - 1 {
      EachOnce(xs, lo, hi - 1, c);
    } else {
      AtMost(xs, lo, hi - 1);
    }
  }

  lemma {:induction false} AtMost(xs: seq<WireOperations.Interval>, lo: int, hi: int)
    requires Apart(xs) && lo <= hi
    ensures Covered(xs, lo, hi) <= hi - lo
    decreases hi - lo
  {
    if lo < hi {
      AtMost(xs, lo, hi - 1);
      AtMostOnce(xs, hi - 1);
    }
  }

  /** Intervals inside an interval, apart and as long together as it is, tile it. */
  lemma {:induction false} ApartTiles(xs: seq<WireOperations.Interval>, lo: int, hi: int)
    requires lo <= hi && Inside(xs, lo, hi) && Apart(xs) && TotalCount(xs) == hi - lo
    ensures WireOperations.Tiles(xs, lo, hi)
  {
    CoveredTotal(xs, lo, hi);
    forall c: int
      ensures WireOperations.Coverage(xs, c) == if lo <= c < hi then 1 else 0
    {
      if lo <= c < hi {
        EachOnce(xs, lo, hi, c);
      } else {
        WireOperations.CoveredByNone(xs, c);
      }
    }
  }

  // ---- In order exactly within the limits ------------------------------------

  lemma {:induction false} SameTotal(ws: seq<WireOperations.WireRun>, rs: seq<InsertedRun>)
    requires |ws| == |rs| && (forall k :: 0 <= k < |ws| ==> CarriesRun(ws[k], rs[k]))
    requires forall k :: 0 <= k < |ws| ==> ws[k].origin.counter < U64
    ensures WireOperations.TotalLength(ws) == TotalLength(rs) == TotalCount(WireOperations.IntervalsOf(ws))
  {
    if ws != [] {
      var n := |ws| - 1;
      SameTotal(ws[..n], rs[..n]);
      assert CarriesRun(ws[n], rs[n]);
      assert WireOperations.IntervalsOf(ws)[..n] == WireOperations.IntervalsOf(ws[..n]);
    }
  }

  lemma {:induction false} HonestTiles(u: set<Operation>, w: WireOperations.WireOperation, o: Operation)
    requires Honest(u) && o in u && CarriesEdit(w, o) && Issuable(o.timestamp)
    ensures forall i :: 0 <= i < |w.inserted| ==> w.inserted[i].origin.counter < U64 && w.inserted[i].origin.actor == o.timestamp.actor
    ensures WireOperations.TotalLength(w.inserted) == TotalLength(o.inserts) && FirstCounter(o) > 0
    ensures WireOperations.Tiles(WireOperations.IntervalsOf(w.inserted), FirstCounter(o), o.timestamp.counter)
  {
    assert WellMinted(o, FirstCounter(o));
    forall i | 0 <= i < |w.inserted|
      ensures w.inserted[i].origin.counter < U64 && CarriesRun(w.inserted[i], o.inserts[i])
    {
      assert CarriesRun(w.inserted[i], o.inserts[i]);
    }
    SameTotal(w.inserted, o.inserts);
    var xs := WireOperations.IntervalsOf(w.inserted);
    forall i, j, c: int | 0 <= i < j < |xs|
      ensures !(WireOperations.Contains(xs[i], c) && WireOperations.Contains(xs[j], c))
    {
      assert RunsApart(o.inserts[i], o.inserts[j]);
      assert CarriesRun(w.inserted[i], o.inserts[i]) && CarriesRun(w.inserted[j], o.inserts[j]);
    }
    forall i | 0 <= i < |xs|
      ensures FirstCounter(o) <= xs[i].start as int && xs[i].start as int + xs[i].count as int <= o.timestamp.counter
    {
      assert CarriesRun(w.inserted[i], o.inserts[i]);
    }
    hide Honest, WellMinted, CarriesEdit, CarriesRun, WireOperations.Tiles;
    ApartTiles(xs, FirstCounter(o), o.timestamp.counter);
  }

  /** The sizes the codec allows: of the frontier and of each text. */
  ghost predicate SizesFit(w: WireOperations.WireOperation) {
    && |w.version| <= OperationFrames.MAX_FRONTIER
    && (w.WireEdit? ==>
          && (forall i :: 0 <= i < |w.newText| ==> |w.newText[i]| <= Json.MAX_TEXT)
          && (forall i :: 0 <= i < |w.inserted| ==> |w.inserted[i].content| <= Json.MAX_TEXT))
  }

  /** Of an honest edit, the codec refuses what receivers refuse, and what is too large:
      its links, runs and deletions are never at fault. */
  lemma {:induction false} EditIsInOrder(u: set<Operation>, w: WireOperations.WireOperation, o: Operation)
    requires Honest(u) && o in u && CarriesEdit(w, o) && HintsFit(w) && Issuable(o.timestamp)
    ensures Accepted(o) <==> WithinLimits(o)
    ensures WireOperations.EditFits(w) <==> WithinLimits(o)
    ensures OperationFrames.InOrder(w) <==> WithinLimits(o) && SizesFit(w)
  {
    HonestIsAccepted(u, o);
    HonestCounters(u, o);
    EditFitsAccepted(w, o);
    HonestFrontier(u, w.version, o);
    HonestHead(u, w.version, o);
    HonestTiles(u, w, o);
    forall i | 0 <= i < |w.inserted|
      ensures Issuable(w.inserted[i].origin) && OperationFrames.LinkIssuable(w.inserted[i].link)
    {
      HonestLinks(u, o, i);
      assert CarriesRun(w.inserted[i], o.inserts[i]);
    }
    forall i | 0 <= i < |w.deleted|
      ensures Issuable(w.deleted[i].id)
    {
      DeletionIsOld(u, o, i);
    }
    hide Honest, Accepted, WithinLimits, HintsFit, CountersFit, WireOperations.EditFits, WireOperations.Tiles, CarriesVersion, CarriesRun,
      OperationFrames.LinkIssuable;
  }

  lemma {:induction false} HonestTarget(u: set<Operation>, o: Operation, t: UndoCount)
    requires Honest(u) && o in u && o.Undo? && t in o.counts && Issuable(o.timestamp)
    ensures Issuable(t.target) && IdLess(t.target, o.timestamp)
  {
    TargetIsUsable(u, o, t);
  }

  /** The same for an undo or redo. */
  lemma {:induction false} UndoIsInOrder(u: set<Operation>, w: WireOperations.WireOperation, o: Operation)
    requires Honest(u) && o in u && CarriesUndo(w, o) && Issuable(o.timestamp)
    ensures Accepted(o) <==> WithinLimits(o)
    ensures OperationFrames.InOrder(w) <==> WithinLimits(o) && SizesFit(w)
  {
    HonestIsAccepted(u, o);
    HonestFrontier(u, w.version, o);
    HonestHead(u, w.version, o);
    forall i | 0 <= i < |w.counts|
      ensures Issuable(w.counts[i].id) && IdLess(w.counts[i].id, o.timestamp)
    {
      HonestTarget(u, o, o.counts[i]);
    }
    hide Honest, Accepted, CarriesVersion;
  }

  // ---- On the wire and back --------------------------------------------------

  /** Widths of the wire form. */
  predicate Narrow(o: Operation) {
    && (o.Edit? ==>
          && (forall k :: 0 <= k < |o.inserts| ==> RunLength(o.inserts[k]) < U32)
          && (forall k :: 0 <= k < |o.deletions| ==> o.deletions[k].count < U32))
    && (o.Undo? ==> forall k :: 0 <= k < |o.counts| ==> o.counts[k].count < U32)
  }

  function RunForm(r: InsertedRun): WireOperations.WireRun
    requires RunLength(r) < U32
  {
    WireOperations.WireRun(r.origin, r.link, Utf.Utf8(r.text), RunLength(r), r.marker)
  }

  /** The wire form of an operation, with the hints of an edit. */
  function WireForm(o: Operation, ps: seq<Clock.Pair>, ranges: seq<WireOperations.Span>, texts: seq<seq<Byte>>): WireOperations.WireOperation
    requires Narrow(o)
  {
    match o
    case Edit(_, _, _, _, _, _) =>
      WireOperations.WireEdit(
        o.timestamp, ps, o.timestamp, o.markerEdit, ranges, texts,
        seq(|o.inserts|, k requires 0 <= k < |o.inserts| => RunForm(o.inserts[k])),
        seq(|o.deletions|, k requires 0 <= k < |o.deletions| => WireOperations.Counted(o.deletions[k].first, o.deletions[k].count)))
    case Undo(_, _, _) =>
      WireOperations.WireUndo(
        o.timestamp, ps, seq(|o.counts|, k requires 0 <= k < |o.counts| => WireOperations.Counted(o.counts[k].target, o.counts[k].count)))
  }

  lemma {:induction false} FormCarries(o: Operation, ps: seq<Clock.Pair>, ranges: seq<WireOperations.Span>, texts: seq<seq<Byte>>)
    requires Narrow(o) && CarriesVersion(ps, o.version) && (o.Edit? ==> |ranges| == |texts| == o.ranges)
    ensures o.Edit? ==> CarriesEdit(WireForm(o, ps, ranges, texts), o)
    ensures o.Undo? ==> CarriesUndo(WireForm(o, ps, ranges, texts), o)
  {
    hide CarriesVersion, Utf.Utf8;
  }

  /** An honest edit can be encoded exactly if it keeps the limits of receivers, of the
      codec and of the frame, and what is sent means the edit. */
  lemma {:induction false} EditTravels(u: set<Operation>, w: WireOperations.WireOperation, o: Operation)
    requires Honest(u) && o in u && CarriesEdit(w, o) && HintsFit(w) && Issuable(o.timestamp)
    ensures OperationFrames.Encodable(w) <==>
              && WithinLimits(o) && SizesFit(w)
              && OperationFrames.Reserved(w) <= w.timestamp.counter
              && FrameLimits.EditValues(w) <= Json.MAX_ELEMENTS && |OperationFrames.Frame(w)| <= OperationFrames.FRAME_LIMIT
    ensures OperationFrames.Encodable(w) ==>
              OperationFrames.Meaning(OperationFrames.Frame(w)) == OperationFrames.Accepted(w)
  {
    EditIsInOrder(u, w, o);
    CarriesCanonical(w, o);
    hide Honest, CarriesEdit, HintsFit, WithinLimits, SizesFit, OperationFrames.InOrder, OperationFrames.Frame;
    if OperationFrames.InOrder(w) { FrameLimits.EditIsEncodable(w); }
    if OperationFrames.Encodable(w) { OperationLaws.MeaningOfFrame(w); }
  }

  lemma {:induction false} CarriesCanonical(w: WireOperations.WireOperation, o: Operation)
    requires CarriesEdit(w, o) || CarriesUndo(w, o)
    ensures Clock.Canonical(w.version) && (w.WireEdit? <==> o.Edit?)
  {
  }

  /** The same for an undo or redo. */
  lemma {:induction false} UndoTravels(u: set<Operation>, w: WireOperations.WireOperation, o: Operation)
    requires Honest(u) && o in u && CarriesUndo(w, o) && Issuable(o.timestamp)
    ensures OperationFrames.Encodable(w) <==>
              WithinLimits(o) && SizesFit(w) && 10 + |w.version| + 5 * |o.counts| <= Json.MAX_ELEMENTS
    ensures OperationFrames.Encodable(w) ==>
              OperationFrames.Meaning(OperationFrames.Frame(w)) == OperationFrames.Accepted(w)
  {
    UndoIsInOrder(u, w, o);
    CarriesCanonical(w, o);
    assert |w.counts| == |o.counts|;
    hide Honest, CarriesUndo, WithinLimits, SizesFit, OperationFrames.InOrder, OperationFrames.Frame;
    if OperationFrames.InOrder(w) { FrameLimits.UndoIsEncodable(w); }
    if OperationFrames.Encodable(w) { OperationLaws.MeaningOfFrame(w); }
  }

  // ---- The hints of a local edit ---------------------------------------------

  /** Byte offset of a scalar offset. */
  function ByteOffset(text: seq<Scalar>, k: nat): nat
    requires k <= |text|
  {
    |Utf.Utf8(text[..k])|
  }

  lemma {:induction false} OffsetsGrow(text: seq<Scalar>, j: nat, k: nat)
    requires j <= k <= |text|
    ensures ByteOffset(text, j) <= ByteOffset(text, k) <= |Utf.Utf8(text)|
  {
    assert text[..k] == text[..j] + text[j..k] && text == text[..k] + text[k..];
    Utf.Utf8Append(text[..j], text[j..k]);
    Utf.Utf8Append(text[..k], text[k..]);
  }

  /** An edit's ranges in bytes, and its texts in UTF-8. */
  ghost predicate HintsOf(w: WireOperations.WireOperation, text: seq<Scalar>, ranges: seq<Range>, news: seq<seq<Scalar>>)
    requires w.WireEdit? && InSequence(ranges, |text|)
  {
    && |w.ranges| == |ranges| && |w.newText| == |news|
    && (forall i :: 0 <= i < |ranges| ==>
          w.ranges[i].start == ByteOffset(text, ranges[i].start) && w.ranges[i].end == ByteOffset(text, ranges[i].end))
    && forall i :: 0 <= i < |news| ==> w.newText[i] == Utf.Utf8(news[i])
  }

  /** The hints of a valid edit of a text are never at fault. */
  lemma {:induction false} HintsOfEdit(w: WireOperations.WireOperation, text: seq<Scalar>, ranges: seq<Range>, news: seq<seq<Scalar>>)
    requires w.WireEdit? && InSequence(ranges, |text|) && HintsOf(w, text, ranges, news)
    ensures HintsFit(w)
  {
    forall i | 0 <= i < |w.ranges|
      ensures w.ranges[i].start <= w.ranges[i].end
      ensures i > 0 ==> w.ranges[i - 1].end <= w.ranges[i].start
    {
      OffsetsGrow(text, ranges[i].start, ranges[i].end);
      if i > 0 { OffsetsGrow(text, ranges[i - 1].end, ranges[i].start); }
    }
    hide ByteOffset, Utf.Utf8;
  }

  /** Receivers accept a marker edit in just two shapes: it inserts one marker, or it
      deletes one item; it never replaces text. */
  lemma {:induction false} MarkerEdits(o: Operation)
    requires o.Edit? && o.markerEdit
    ensures Accepted(o) <==>
              && Usable(o.timestamp) && o.ranges == 0
              && (|| (exists origin, link :: o.inserts == [InsertedRun(origin, link, [], true)] && o.deletions == []
                                             && Usable(origin) && LinkAccepted(link, o.version))
                  || (exists id :: o.inserts == [] && o.deletions == [DeletionRun(id, 1)] && Usable(id)))
  {
    if |o.inserts| == 1 {
      var r := o.inserts[0];
      assert o.inserts == [r] && (r.marker && r.text == [] ==> r == InsertedRun(r.origin, r.link, [], true));
      assert r.marker ==> RunLength(r) == 1;
    }
    if |o.deletions| == 1 {
      var d := o.deletions[0];
      assert o.deletions == [d] && (d.count == 1 ==> d == DeletionRun(d.first, 1));
    }
    hide LinkAccepted;
  }
}
