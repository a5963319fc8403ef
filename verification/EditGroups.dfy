/** What a local edit will have to remember, computed before the edit is made:
    how many items it inserts, whether it deletes anything, and how many bytes it
    takes to restore. The group the edit commits has exactly these sizes. */
module EditGroups {
  import opened Ids
  import opened VersionVectors
  import opened FugueOrder
  import opened Fragments
  import opened Histories
  import opened Representation
  import opened VisibleText
  import opened LocalPlacement
  import opened LocalEdits
  import opened LocalOperations
  import opened FastEdits
  import opened UndoHistories
  import opened LocalUndo
  import Utf

  /** Bytes of a text in UTF-8. */
  function TextBytes(text: seq<Scalar>): nat {
    |Utf.Utf8(text)|
  }

  function TotalText(news: seq<seq<Scalar>>): nat {
    if news == [] then 0 else TotalText(news[..|news| - 1]) + |news[|news| - 1]|
  }

  predicate AnyDeleted(ranges: seq<Range>) {
    exists i :: 0 <= i < |ranges| && ranges[i].start < ranges[i].end
  }

  /** Bytes of the texts an edit inserts and of those it replaces. */
  function EditBytes(text: seq<Scalar>, ranges: seq<Range>, news: seq<seq<Scalar>>): nat
    requires |ranges| == |news| && forall i :: 0 <= i < |ranges| ==> ranges[i].start <= ranges[i].end <= |text|
  {
    if ranges == [] then 0
    else
      var last := |ranges| - 1;
      EditBytes(text, ranges[..last], news[..last]) + TextBytes(news[last]) + TextBytes(text[ranges[last].start..ranges[last].end])
  }

  /** What undoing the edit retains, or nothing when that is out of range. */
  function RetainedBytes(text: seq<Scalar>, ranges: seq<Range>, news: seq<seq<Scalar>>): Option<nat>
    requires |ranges| == |news| && forall i :: 0 <= i < |ranges| ==> ranges[i].start <= ranges[i].end <= |text|
  {
    var bytes := EditBytes(text, ranges, news) + TotalText(news) * IDENTITY_SIZE + if AnyDeleted(ranges) then IDENTITY_SIZE else 0;
    if bytes > SIZE_MAX then None else Some(bytes)
  }

  /** The texts of the ranges, one after the other. */
  function TakenOut(text: seq<Scalar>, ranges: seq<Range>): seq<Scalar>
    requires forall i :: 0 <= i < |ranges| ==> ranges[i].start <= ranges[i].end <= |text|
  {
    if ranges == [] then []
    else TakenOut(text, ranges[..|ranges| - 1]) + text[ranges[|ranges| - 1].start..ranges[|ranges| - 1].end]
  }

  /** The new texts, one after the other. */
  function PutIn(news: seq<seq<Scalar>>): seq<Scalar> {
    if news == [] then [] else PutIn(news[..|news| - 1]) + news[|news| - 1]
  }

  /** What an edit retains is what it takes out and what it puts in, in bytes. */
  lemma {:induction false} EditBytesAre(text: seq<Scalar>, ranges: seq<Range>, news: seq<seq<Scalar>>)
    requires |ranges| == |news| && forall i :: 0 <= i < |ranges| ==> ranges[i].start <= ranges[i].end <= |text|
    ensures EditBytes(text, ranges, news) == TextBytes(TakenOut(text, ranges)) + TextBytes(PutIn(news))
    ensures TotalText(news) == |PutIn(news)|
  {
    if ranges != [] {
      var last := |ranges| - 1;
      EditBytesAre(text, ranges[..last], news[..last]);
      BytesConcat(TakenOut(text, ranges[..last]), text[ranges[last].start..ranges[last].end]);
      BytesConcat(PutIn(news[..last]), news[last]);
    }
    hide TextBytes;
  }

  /** Bytes are conserved: the text before and what is put in are the text after and
      what is taken out. */
  lemma {:induction false} BytesConserved(text: seq<Scalar>, ranges: seq<Range>, news: seq<seq<Scalar>>)
    requires |ranges| == |news| && InSequence(ranges, |text|)
    ensures TextBytes(Edited(text, ranges, news)) + TextBytes(TakenOut(text, ranges)) == TextBytes(text) + TextBytes(PutIn(news))
    decreases |ranges|
  {
    if ranges != [] {
      var last := |ranges| - 1;
      var r := ranges[last];
      EditedBytes(text, ranges, news);
      TakenBytes(text, ranges);
      BytesConserved(text[..r.start], ranges[..last], news[..last]);
      CutBytes(text, r);
      BytesConcat(PutIn(news[..last]), news[last]);
      hide TextBytes, Edited, InSequence, TakenOut;
    }
  }

  lemma {:induction false} EditedBytes(text: seq<Scalar>, ranges: seq<Range>, news: seq<seq<Scalar>>)
    requires |ranges| == |news| && InSequence(ranges, |text|) && ranges != []
    ensures ranges[|ranges| - 1].start <= ranges[|ranges| - 1].end <= |text|
    ensures InSequence(ranges[..|ranges| - 1], |text[..ranges[|ranges| - 1].start]|)
    ensures var last := |ranges| - 1;
            TextBytes(Edited(text, ranges, news))
            == TextBytes(Edited(text[..ranges[last].start], ranges[..last], news[..last])) + TextBytes(news[last])
               + TextBytes(text[ranges[last].end..])
  {
    var last := |ranges| - 1;
    EditedUnfold(text, ranges, news);
    hide *;
    BytesOfThree(Edited(text[..ranges[last].start], ranges[..last], news[..last]), news[last], text[ranges[last].end..]);
  }

  lemma {:induction false} TakenBytes(text: seq<Scalar>, ranges: seq<Range>)
    requires InSequence(ranges, |text|) && ranges != []
    ensures var r := ranges[|ranges| - 1];
            TextBytes(TakenOut(text, ranges)) == TextBytes(TakenOut(text[..r.start], ranges[..|ranges| - 1])) + TextBytes(text[r.start..r.end])
  {
    var r := ranges[|ranges| - 1];
    SameTaken(text, r.start, ranges[..|ranges| - 1]);
    BytesConcat(TakenOut(text, ranges[..|ranges| - 1]), text[r.start..r.end]);
    hide TextBytes;
  }

  lemma {:induction false} CutBytes(text: seq<Scalar>, r: Range)
    requires r.start <= r.end <= |text|
    ensures TextBytes(text) == TextBytes(text[..r.start]) + TextBytes(text[r.start..r.end]) + TextBytes(text[r.end..])
  {
    BytesOfThree(text[..r.start], text[r.start..r.end], text[r.end..]);
    assert text[..r.start] + text[r.start..r.end] + text[r.end..] == text;
  }

  /** What is retained for undoing an edit, if that is in range: the bytes taken out and
      put in, and an identity for each scalar put in and one for taking out. */
  lemma {:induction false} RetainedIs(text: seq<Scalar>, ranges: seq<Range>, news: seq<seq<Scalar>>)
    requires |ranges| == |news| && forall i :: 0 <= i < |ranges| ==> ranges[i].start <= ranges[i].end <= |text|
    ensures var n := TextBytes(TakenOut(text, ranges)) + TextBytes(PutIn(news)) + 24 * |PutIn(news)| + (if TakenOut(text, ranges) != [] then 24 else 0);
            RetainedBytes(text, ranges, news) == if n > SIZE_MAX then None else Some(n)
  {
    EditBytesAre(text, ranges, news);
    TakenSomething(text, ranges);
    hide TextBytes, EditBytes, PutIn, TakenOut, AnyDeleted, TotalText;
    var n := TextBytes(TakenOut(text, ranges)) + TextBytes(PutIn(news)) + 24 * |PutIn(news)| + (if TakenOut(text, ranges) != [] then 24 else 0);
    assert EditBytes(text, ranges, news) + TotalText(news) * IDENTITY_SIZE + (if AnyDeleted(ranges) then IDENTITY_SIZE else 0) == n;
  }

  lemma {:induction false} TakenSomething(text: seq<Scalar>, ranges: seq<Range>)
    requires forall i :: 0 <= i < |ranges| ==> ranges[i].start <= ranges[i].end <= |text|
    ensures TakenOut(text, ranges) != [] <==> AnyDeleted(ranges)
  {
    if ranges != [] {
      var init, last := ranges[..|ranges| - 1], ranges[|ranges| - 1];
      TakenSomething(text, init);
      if AnyDeleted(init) {
        var i :| 0 <= i < |init| && init[i].start < init[i].end;
        assert ranges[i] == init[i];
      }
      if AnyDeleted(ranges) && !AnyDeleted(init) {
        var i :| 0 <= i < |ranges| && ranges[i].start < ranges[i].end;
        assert i < |init| ==> init[i] == ranges[i];
      }
    }
  }

  lemma {:induction false} SameTaken(text: seq<Scalar>, n: nat, ranges: seq<Range>)
    requires n <= |text| && forall i :: 0 <= i < |ranges| ==> ranges[i].start <= ranges[i].end <= n
    ensures TakenOut(text[..n], ranges) == TakenOut(text, ranges)
  {
    if ranges != [] {
      var last := |ranges| - 1;
      SameTaken(text, n, ranges[..last]);
      assert text[..n][ranges[last].start..ranges[last].end] == text[ranges[last].start..ranges[last].end];
    }
  }

  lemma {:induction false} BytesConcat(a: seq<Scalar>, b: seq<Scalar>)
    ensures TextBytes(a + b) == TextBytes(a) + TextBytes(b)
  {
    Utf.Utf8Append(a, b);
  }

  lemma {:induction false} BytesOfThree(a: seq<Scalar>, b: seq<Scalar>, c: seq<Scalar>)
    ensures TextBytes(a + b + c) == TextBytes(a) + TextBytes(b) + TextBytes(c)
  {
    BytesConcat(a + b, c);
    BytesConcat(a, b);
  }

  // ---- The inserted items ------------------------------------------------

  lemma {:induction false} KeptTotal(runs: seq<seq<Item>>)
    ensures TotalItems(KeptRuns(runs)) == TotalItems(runs)
  {
    if runs != [] {
      var init, last := runs[..|runs| - 1], runs[|runs| - 1];
      KeptTotal(init);
      var kept := KeptRuns(init);
      if last != [] {
        assert (kept + [last])[..|kept|] == kept;
        assert KeptRuns(runs) == kept + [last];
      } else {
        assert KeptRuns(runs) == kept;
      }
    }
  }

  lemma {:induction false} RecordTotal(recs: seq<InsertedRun>)
    ensures TotalItems(RunItems(RunFragments(recs))) == TotalLength(recs)
  {
    if recs != [] {
      var init, last := recs[..|recs| - 1], recs[|recs| - 1];
      RecordTotal(init);
      FragmentsStep(init, last);
      assert recs == init + [last];
      var runs := RunItems(RunFragments(init));
      assert (runs + [ItemsOf(RunFragment(last))])[..|runs|] == runs;
    }
  }

  lemma {:induction false} TextTotal(runs: seq<seq<Item>>, news: seq<seq<Scalar>>)
    requires |runs| == |news| && forall k :: 0 <= k < |runs| ==> |runs[k]| == |news[k]|
    ensures TotalItems(runs) == TotalText(news)
  {
    if runs != [] { TextTotal(runs[..|runs| - 1], news[..|news| - 1]); }
  }

  lemma {:induction false} KeptHas(runs: seq<seq<Item>>, k: nat)
    requires k < |runs| && runs[k] != []
    ensures runs[k] in KeptRuns(runs)
  {
    if k < |runs| - 1 {
      KeptHas(runs[..|runs| - 1], k);
      assert runs[..|runs| - 1][k] == runs[k];
    }
  }

  /** An edit inserts as many items as the new texts have scalars. */
  lemma {:induction false} InsertedCount(items: seq<Item>, ranges: seq<Range>, news: seq<seq<Scalar>>, actor: ActorId, first: nat, o: Operation,
                                         after: seq<Item>)
    requires IsEdit(items, ranges, news, actor, first, o, after)
    ensures o.Edit? && TotalLength(o.inserts) == TotalText(news)
  {
    var ps, runs := EditParts(items, ranges, news, actor, first, o, after);
    MintedParts(items, ranges, news, o.inserts, ps, runs);
    hide *;
    forall k | 0 <= k < |runs|
      ensures |runs[k]| == |news[k]|
    {
      RunIsText(o.inserts, actor, first, o.timestamp.counter, runs, news, k);
    }
    KeptTotal(runs);
    RecordTotal(o.inserts);
    TextTotal(runs, news);
  }

  /** How many of the new texts are not empty. */
  function FullTexts(news: seq<seq<Scalar>>): nat {
    if news == [] then 0 else FullTexts(news[..|news| - 1]) + if news[|news| - 1] == [] then 0 else 1
  }

  lemma {:induction false} KeptCount(runs: seq<seq<Item>>, news: seq<seq<Scalar>>)
    requires |runs| == |news| && forall k :: 0 <= k < |runs| ==> |runs[k]| == |news[k]|
    ensures |KeptRuns(runs)| == FullTexts(news)
  {
    if runs != [] { KeptCount(runs[..|runs| - 1], news[..|news| - 1]); }
  }

  lemma {:induction false} MintedCount(recs: seq<InsertedRun>, runs: seq<seq<Item>>)
    requires RunItems(RunFragments(recs)) == KeptRuns(runs)
    ensures |recs| == |KeptRuns(runs)|
  {
  }

  /** An edit inserts one run for each new text that is not empty. */
  lemma {:induction false} InsertedRuns(items: seq<Item>, ranges: seq<Range>, news: seq<seq<Scalar>>, actor: ActorId, first: nat, o: Operation,
                                        after: seq<Item>)
    requires IsEdit(items, ranges, news, actor, first, o, after)
    ensures o.Edit? && |o.inserts| == FullTexts(news)
  {
    var ps, runs := EditParts(items, ranges, news, actor, first, o, after);
    MintedParts(items, ranges, news, o.inserts, ps, runs);
    hide *;
    forall k | 0 <= k < |runs|
      ensures |runs[k]| == |news[k]|
    {
      RunIsText(o.inserts, actor, first, o.timestamp.counter, runs, news, k);
    }
    KeptCount(runs, news);
    MintedCount(o.inserts, runs);
  }

  lemma {:induction false} RunIsText(recs: seq<InsertedRun>, actor: ActorId, first: nat, next: nat, runs: seq<seq<Item>>, news: seq<seq<Scalar>>, k: nat)
    requires MintedInTurn(recs, actor, first, next) && RunItems(RunFragments(recs)) == KeptRuns(runs) && RunTexts(runs, news) && k < |runs|
    ensures |runs[k]| == |news[k]|
  {
    assert Text(runs[k]) == news[k];
    if runs[k] != [] {
      KeptHas(runs, k);
      var j :| 0 <= j < |RunItems(RunFragments(recs))| && RunItems(RunFragments(recs))[j] == runs[k];
      RunItemsAt(RunFragments(recs), j);
      NewRunText(recs[j]);
    }
  }

  lemma {:induction false} InsertedLength(recs: seq<InsertedRun>)
    ensures |InsertedIds(recs)| == TotalLength(recs)
  {
    if recs != [] { InsertedLength(recs[..|recs| - 1]); }
  }

  // ---- The deletions -----------------------------------------------------

  /** The visible scalar at an offset. */
  lemma {:induction false} ScalarAt(items: seq<Item>, s: nat) returns (i: nat)
    requires s < |Text(items)|
    ensures i < |items| && IsText(items[i]) && Offset(items, i) == s
  {
    var p := FindPlace(items, s + 1);
    OffsetEnds(items);
    i := p - 1;
    OffsetStep(items, i);
  }

  /** An edit's operation deletes something exactly if some range is not empty. */
  lemma {:induction false} DeletedSome(u: set<Operation>, a: set<Operation>, v: Version, items: seq<Item>, ranges: seq<Range>, o: Operation)
    requires o.Edit? && MintedFrom(u, a, v, o) && InSequence(ranges, |Text(items)|)
    requires forall id :: Deletes(o, id) <==> id in ChosenIds(items, ranges)
    ensures o.deletions != [] <==> AnyDeleted(ranges)
  {
    if AnyDeleted(ranges) {
      var k :| 0 <= k < |ranges| && ranges[k].start < ranges[k].end;
      var i := ScalarAt(items, ranges[k].start);
      assert ranges[k] in ranges;
      assert Chosen(items, ranges, i);
      assert Deletes(o, items[i].node.id);
    }
    if o.deletions != [] {
      FirstDeleted(u, a, v, o);
      var i :| 0 <= i < |items| && Chosen(items, ranges, i) && items[i].node.id == o.deletions[0].first;
      var r :| r in ranges && r.start <= Offset(items, i) < r.end;
      var k :| 0 <= k < |ranges| && ranges[k] == r;
    }
  }

  lemma {:induction false} FirstDeleted(u: set<Operation>, a: set<Operation>, v: Version, o: Operation)
    requires o.Edit? && MintedFrom(u, a, v, o) && o.deletions != []
    ensures Deletes(o, o.deletions[0].first)
  {
    assert WellMinted(o, FirstCounter(o));
    assert InDeletion(o.deletions[0], o.deletions[0].first);
  }

  /** The group of an edit has the sizes that were predicted. */
  lemma {:induction false} GroupSizes(u: set<Operation>, a: set<Operation>, v: Version, items: seq<Item>, ranges: seq<Range>, news: seq<seq<Scalar>>,
                                      actor: ActorId, first: nat, o: Operation, after: seq<Item>, retained: nat)
    requires IsEdit(items, ranges, news, actor, first, o, after) && o.Edit? && MintedFrom(u, a, v, o) && InSequence(ranges, |Text(items)|)
    ensures var g := GroupOf(o, retained);
            && g.retained == retained && |g.operations| == 1 && |g.inserted| == TotalText(news)
            && |g.deletions| == if AnyDeleted(ranges) then 1 else 0
  {
    InsertedCount(items, ranges, news, actor, first, o, after);
    InsertedLength(o.inserts);
    var ps, runs := EditParts(items, ranges, news, actor, first, o, after);
    hide IsEdit, MintedFrom, InSequence, AnyDeleted, TotalText, TotalLength, InsertedIds, MintedSoFar, MintedInTurn, Woven, KeptPlaces;
    DeletedSome(u, a, v, items, ranges, o);
  }

  // ---- Operations other replicas refuse ----------------------------------

  /** An edit that replaces so many empty ranges by nothing. */
  function EmptyEdit(n: nat): Operation {
    Edit(Identity(1, 1), map[], false, [], [], n)
  }

  /** Nothing is inserted or removed, yet beyond the limit on ranges every replica
      refuses the edit. */
  lemma {:induction false} EmptyEditIsRefused(n: nat)
    ensures var ranges, news := seq(n, i => Range(0, 0)), seq(n, i => []);
            InSequence(ranges, 0) && Removed(ranges) == 0 && FullTexts(news) == 0
    ensures Honest({EmptyEdit(n)}) && (Accepted(EmptyEdit(n)) <==> n <= MAX_PARTS)
  {
    var o := EmptyEdit(n);
    NothingRemoved(n);
    NoFullTexts(n);
    assert WellMinted(o, 1) && FirstCounter(o) == 1;
    assert Honest({o});
    HonestIsAccepted({o}, o);
  }

  lemma {:induction false} NothingRemoved(n: nat)
    ensures Removed(seq(n, i => Range(0, 0))) == 0
  {
    if n > 0 {
      NothingRemoved(n - 1);
      var ranges, rest := seq(n, i => Range(0, 0)), seq(n - 1, i => Range(0, 0));
      assert ranges[1..] == rest;
    }
  }

  lemma {:induction false} NoFullTexts(n: nat)
    ensures FullTexts(seq(n, i => [])) == 0
  {
    if n > 0 {
      NoFullTexts(n - 1);
      var news: seq<seq<Scalar>>, rest: seq<seq<Scalar>> := seq(n, i => []), seq(n - 1, i => []);
      assert news[..n - 1] == rest;
    }
  }

  /** An edit that inserts one text of this many scalars into an empty document. */
  function LongInsertion(n: nat): (o: Operation)
    ensures o.Edit?
  {
    Edit(Identity(1, n + 1), map[], false, [InsertedRun(Identity(1, 1), Link(None, Right, None), seq(n, i => 0x61), false)], [], 1)
  }

  /** The undo of that edit. */
  function LongUndo(n: nat): Operation {
    Undo(Identity(1, n + 2), map[1 := n + 1], CountsFor([], TargetsOf(GroupOf(LongInsertion(n), 0))))
  }

  lemma {:induction false} LongIsHonest(n: nat)
    requires n > 0
    ensures var o := LongInsertion(n);
            Honest({o}) && Closed({o}, {o}) && IsFrontier({o}, map[1 := n + 1]) && UndoTold({o}, [])
            && GroupKnown({o}, GroupOf(o, 0)) && GroupOf(o, 0).id.actor == 1 && |TargetsOf(GroupOf(o, 0))| == n && Accepted(o)
  {
    var o := LongInsertion(n);
    assert o.inserts[..0] == [];
    assert TotalLength(o.inserts) == n;
    assert WellMinted(o, 1) && FirstCounter(o) == 1;
    assert Honest({o});
    EditIsKnown({o}, {o}, o, 0);
    InsertedLength(o.inserts);
    HonestIsAccepted({o}, o);
  }

  /** Every replica accepts the edit, which is one run; its undo counts every scalar,
      so every replica refuses it once there are more of them than an operation may
      have parts. */
  lemma {:induction false} LongInsertionAndUndo(n: nat)
    requires n > 0
    ensures var o, q := LongInsertion(n), LongUndo(n);
            Honest({o, q}) && Accepted(o) && (Accepted(q) <==> n <= MAX_PARTS)
  {
    hide *;
    LongIsHonest(n);
    LongUndoIs(n);
    var o, q := LongInsertion(n), LongUndo(n);
    UndoIsMinted({o}, {o}, [], map[1 := n + 1], n + 2, 1, GroupOf(o, 0), q);
    UndoIsAsLarge([], GroupOf(o, 0), q);
    MintKeepsHonest({o}, {o}, map[1 := n + 1], q);
    assert {o} + {q} == {o, q};
  }

  lemma {:induction false} LongUndoIs(n: nat)
    ensures var o, q := LongInsertion(n), LongUndo(n);
            q == Undo(Identity(1, n + 2), map[1 := n + 1], CountsFor([], TargetsOf(GroupOf(o, 0)))) && q.Undo?
            && OwnApplied({o}, {o}, 1) && ValidActor(1)
  {
  }
}
