/** The edits that lead from an earlier version's text to the current one: one
    walk over the runs compares what each showed then with what it shows now.

    For a version some replica was at, the text it starts from is the text that
    replica showed, so the edits bring an old view up to date. */
module EditsSince {
  import opened Ids
  import opened VersionVectors
  import opened Fragments
  import opened Representation
  import opened VisibleText
  import opened LocalEdits

  // ---- What was visible --------------------------------------------------

  /** The undo entries a version knows. */
  function EntriesAt(undo: seq<UndoEntry>, since: Version): (r: seq<UndoEntry>)
    ensures forall e :: e in r <==> e in undo && Observed(since, e.undo)
  {
    if undo == [] then []
    else
      var last := undo[|undo| - 1];
      EntriesAt(undo[..|undo| - 1], since) + if Observed(since, last.undo) then [last] else []
  }

  method WasUndone(undo: seq<UndoEntry>, id: Identity, since: Version) returns (undone: bool)
    ensures undone == Undone(EntriesAt(undo, since), id)
  {
    var max := 0;
    assert undo[..0] == [];
    for i := 0 to |undo|
      invariant max == MaxCount(EntriesAt(undo[..i], since), id)
    {
      assert undo[..i + 1][..i] == undo[..i];
      EntryStep(undo[..i], undo[i], since, id);
      if undo[i].target == id && Observed(since, undo[i].undo) && undo[i].count > max {
        max := undo[i].count;
      }
    }
    assert undo[..|undo|] == undo;
    undone := max % 2 == 1;
  }

  lemma {:induction false} EntryStep(undo: seq<UndoEntry>, e: UndoEntry, since: Version, id: Identity)
    ensures MaxCount(EntriesAt(undo + [e], since), id)
            == if Observed(since, e.undo) && e.target == id then Max(MaxCount(EntriesAt(undo, since), id), e.count)
               else MaxCount(EntriesAt(undo, since), id)
  {
    assert (undo + [e])[..|undo|] == undo;
    var r := EntriesAt(undo, since);
    assert (r + [e])[..|r|] == r;
    assert EntriesAt(undo + [e], since) == if Observed(since, e.undo) then r + [e] else r;
  }

  predicate WasVisible(id: Identity, dels: set<Identity>, since: Version, undo: seq<UndoEntry>) {
    && Observed(since, id) && !Undone(EntriesAt(undo, since), id)
    && forall d :: d in dels && Observed(since, d) ==> Undone(EntriesAt(undo, since), d)
  }

  function DeletionSet(f: Fragment): set<Identity> {
    set d | d in f.deletions
  }

  /** Visibility of a run at a version, judged by its first identity. */
  method RunWasVisible(f: Fragment, since: Version, undo: seq<UndoEntry>) returns (was: bool)
    ensures was == WasVisible(f.origin, DeletionSet(f), since, undo)
  {
    if !Observed(since, f.origin) { return false; }
    var undone := WasUndone(undo, f.origin, since);
    if undone { return false; }
    for i := 0 to |f.deletions|
      invariant forall d :: d in f.deletions[..i] && Observed(since, d) ==> Undone(EntriesAt(undo, since), d)
    {
      assert f.deletions[..i + 1] == f.deletions[..i] + [f.deletions[i]];
      if Observed(since, f.deletions[i]) {
        var lifted := WasUndone(undo, f.deletions[i], since);
        if !lifted {
          assert f.deletions[i] in DeletionSet(f);
          return false;
        }
      }
    }
    assert f.deletions[..|f.deletions|] == f.deletions;
    return true;
  }

  // ---- Texts by runs -----------------------------------------------------

  function RunText(f: Fragment): seq<Scalar> {
    if f.marker then [] else f.text
  }

  /** What the runs showed at a version. */
  ghost function OldText(frags: seq<Fragment>, since: Version, undo: seq<UndoEntry>): seq<Scalar> {
    if frags == [] then []
    else
      var last := frags[|frags| - 1];
      OldText(frags[..|frags| - 1], since, undo)
      + if WasVisible(last.origin, DeletionSet(last), since, undo) then RunText(last) else []
  }

  /** What they show now. */
  ghost function NewText(frags: seq<Fragment>): seq<Scalar> {
    if frags == [] then []
    else
      var last := frags[|frags| - 1];
      NewText(frags[..|frags| - 1]) + if last.visible then RunText(last) else []
  }

  lemma {:induction false} NewTextIsText(frags: seq<Fragment>)
    ensures NewText(frags) == Text(Items(frags))
  {
    if frags != [] {
      var init, last := frags[..|frags| - 1], frags[|frags| - 1];
      NewTextIsText(init);
      TextConcat(Items(init), ItemsOf(last));
      TextOfRun(last, Length(last));
      assert ItemsOf(last)[..Length(last)] == ItemsOf(last);
    }
  }

  // ---- Texts by items ----------------------------------------------------

  /** One scalar of an item, and when it is visible: then, now or both. */
  datatype Shown = Shown(id: Identity, scalar: Scalar, was: bool, is_: bool)

  function Scalars(shown: seq<Shown>): (r: seq<Scalar>)
    ensures |r| == |shown|
  {
    seq(|shown|, i requires 0 <= i < |shown| => shown[i].scalar)
  }

  function RunShown(f: Fragment, since: Version, undo: seq<UndoEntry>): (r: seq<Shown>)
    ensures |r| == |RunText(f)|
  {
    seq(|RunText(f)|, j requires 0 <= j < |RunText(f)| =>
      Shown(Identity(f.origin.actor, f.origin.counter + j), RunText(f)[j], WasVisible(f.origin, DeletionSet(f), since, undo), f.visible))
  }

  /** The items visible at a version, in order. */
  ghost function OldShown(frags: seq<Fragment>, since: Version, undo: seq<UndoEntry>): seq<Shown> {
    if frags == [] then []
    else
      var last := frags[|frags| - 1];
      OldShown(frags[..|frags| - 1], since, undo)
      + if WasVisible(last.origin, DeletionSet(last), since, undo) then RunShown(last, since, undo) else []
  }

  /** The items visible now. */
  ghost function NewShown(frags: seq<Fragment>, since: Version, undo: seq<UndoEntry>): seq<Shown> {
    if frags == [] then []
    else
      var last := frags[|frags| - 1];
      NewShown(frags[..|frags| - 1], since, undo) + if last.visible then RunShown(last, since, undo) else []
  }

  lemma {:induction false} ScalarsConcat(x: seq<Shown>, y: seq<Shown>)
    ensures Scalars(x + y) == Scalars(x) + Scalars(y)
  {
  }

  lemma {:induction false} ShownIsText(frags: seq<Fragment>, since: Version, undo: seq<UndoEntry>)
    ensures Scalars(OldShown(frags, since, undo)) == OldText(frags, since, undo)
    ensures Scalars(NewShown(frags, since, undo)) == NewText(frags)
  {
    if frags != [] {
      var init, last := frags[..|frags| - 1], frags[|frags| - 1];
      ShownIsText(init, since, undo);
      RunShownIsText(last, since, undo);
      hide RunShown, Scalars, RunText, WasVisible;
      ScalarsConcat(OldShown(init, since, undo), RunShown(last, since, undo));
      ScalarsConcat(NewShown(init, since, undo), RunShown(last, since, undo));
      ScalarsConcat(OldShown(init, since, undo), []);
      ScalarsConcat(NewShown(init, since, undo), []);
      NoScalars();
    }
  }

  lemma {:induction false} NoScalars()
    ensures Scalars([]) == []
  {
  }

  lemma {:induction false} RunShownIsText(f: Fragment, since: Version, undo: seq<UndoEntry>)
    ensures Scalars(RunShown(f, since, undo)) == RunText(f)
  {
    hide WasVisible, DeletionSet;
  }

  // ---- The walk ----------------------------------------------------------

  datatype TextEdit<T> = TextEdit(range: Range, text: seq<T>)

  function RangesOf<T>(edits: seq<TextEdit<T>>): (r: seq<Range>)
    ensures |r| == |edits|
  {
    seq(|edits|, i requires 0 <= i < |edits| => edits[i].range)
  }

  function NewsOf<T>(edits: seq<TextEdit<T>>): (r: seq<seq<T>>)
    ensures |r| == |edits|
  {
    seq(|edits|, i requires 0 <= i < |edits| => edits[i].text)
  }

  /** The edits are in range, in order, do not overlap and do something, and
      turn one text into the other. */
  ghost predicate IsPatch<T>(edits: seq<TextEdit<T>>, was: seq<T>, is_: seq<T>) {
    && InSequence(RangesOf(edits), |was|)
    && (forall i :: 0 <= i < |edits| ==> edits[i].range.start < edits[i].range.end || edits[i].text != [])
    && Edited(was, RangesOf(edits), NewsOf(edits)) == is_
  }

  /** The edits replace only what has gone, and only by what has come. */
  ghost predicate IsDiff(edits: seq<TextEdit<Shown>>, was: seq<Shown>, is_: seq<Shown>) {
    && IsPatch(edits, was, is_)
    && (forall i, k :: 0 <= i < |edits| && edits[i].range.start <= k < edits[i].range.end && k < |was| ==> !was[k].is_)
    && (forall i, x :: 0 <= i < |edits| && x in edits[i].text ==> !x.was)
  }

  /** The edit of the text that an edit of the items makes. */
  function PlainEdit(e: TextEdit<Shown>): TextEdit<Scalar> {
    TextEdit(e.range, Scalars(e.text))
  }

  function Plain(edits: seq<TextEdit<Shown>>): (r: seq<TextEdit<Scalar>>)
    ensures |r| == |edits|
  {
    seq(|edits|, i requires 0 <= i < |edits| => PlainEdit(edits[i]))
  }

  /** Text after the last edit is kept. */
  lemma {:induction false} PatchExtends<T>(edits: seq<TextEdit<T>>, was: seq<T>, is_: seq<T>, more: seq<T>)
    requires IsPatch(edits, was, is_)
    ensures IsPatch(edits, was + more, is_ + more)
  {
    if edits != [] {
      var last := |edits| - 1;
      var r := RangesOf(edits)[last];
      assert r.end <= |was|;
      assert (was + more)[..r.start] == was[..r.start];
      assert (was + more)[r.end..] == was[r.end..] + more;
    }
  }

  lemma {:induction false} DiffExtends(edits: seq<TextEdit<Shown>>, was: seq<Shown>, is_: seq<Shown>, more: seq<Shown>)
    requires IsDiff(edits, was, is_)
    ensures IsDiff(edits, was + more, is_ + more)
  {
    PatchExtends(edits, was, is_, more);
    PatchInside(edits, was, is_);
    hide IsPatch;
  }

  lemma {:induction false} PatchInside<T>(edits: seq<TextEdit<T>>, was: seq<T>, is_: seq<T>)
    requires IsPatch(edits, was, is_)
    ensures forall i :: 0 <= i < |edits| ==> edits[i].range.start <= edits[i].range.end <= |was|
  {
    assert forall i :: 0 <= i < |edits| ==> RangesOf(edits)[i] == edits[i].range;
  }

  /** One more edit up to the end of the text. */
  lemma {:induction false} PatchGrows<T>(edits: seq<TextEdit<T>>, was: seq<T>, start: nat, is_: seq<T>, e: TextEdit<T>)
    requires start <= |was| && IsPatch(edits, was[..start], is_)
    requires e.range == Range(start, |was|) && (start < |was| || e.text != [])
    ensures IsPatch(edits + [e], was, is_ + e.text)
  {
    var all := edits + [e];
    assert RangesOf(all)[..|edits|] == RangesOf(edits) && NewsOf(all)[..|edits|] == NewsOf(edits);
    assert was[|was|..] == [];
    assert forall i :: 0 <= i < |edits| ==> RangesOf(all)[i] == RangesOf(edits)[i];
  }

  lemma {:induction false} DiffGrows(edits: seq<TextEdit<Shown>>, was: seq<Shown>, start: nat, is_: seq<Shown>, e: TextEdit<Shown>)
    requires start <= |was| && IsDiff(edits, was[..start], is_)
    requires e.range == Range(start, |was|) && (start < |was| || e.text != [])
    requires (forall k :: start <= k < |was| ==> !was[k].is_) && forall x :: x in e.text ==> !x.was
    ensures IsDiff(edits + [e], was, is_ + e.text)
  {
    PatchGrows(edits, was, start, is_, e);
    PatchInside(edits, was[..start], is_);
    hide IsPatch;
    assert forall k :: 0 <= k < start ==> was[..start][k] == was[k];
  }

  /** What the walk keeps. A pending edit covers the old text from `start` on and
      has collected `text`; edits already made turn the old text before it into
      the new text before it. */
  ghost predicate Walked(edits: seq<TextEdit<Shown>>, pending: bool, start: nat, text: seq<Shown>, was: seq<Shown>, is_: seq<Shown>) {
    if pending then
      && start <= |was| && (exists before :: IsDiff(edits, was[..start], before) && is_ == before + text)
      && (forall k :: start <= k < |was| ==> !was[k].is_) && (forall x :: x in text ==> !x.was)
    else IsDiff(edits, was, is_)
  }

  lemma {:induction false} WalkFlush(edits: seq<TextEdit<Shown>>, start: nat, text: seq<Shown>, was: seq<Shown>, is_: seq<Shown>)
    requires Walked(edits, true, start, text, was, is_)
    ensures start < |was| || text != [] ==> IsDiff(edits + [TextEdit(Range(start, |was|), text)], was, is_)
    ensures !(start < |was| || text != []) ==> IsDiff(edits, was, is_)
  {
    hide IsDiff;
    var before :| IsDiff(edits, was[..start], before) && is_ == before + text;
    if start < |was| || text != [] {
      DiffGrows(edits, was, start, before, TextEdit(Range(start, |was|), text));
    } else {
      assert was[..start] == was && before + text == before;
    }
  }

  lemma {:induction false} WalkBegin(edits: seq<TextEdit<Shown>>, was: seq<Shown>, is_: seq<Shown>)
    requires IsDiff(edits, was, is_)
    ensures Walked(edits, true, |was|, [], was, is_)
  {
    hide IsDiff;
    assert was[..|was|] == was && is_ == is_ + [];
  }

  lemma {:induction false} WalkMore(edits: seq<TextEdit<Shown>>, start: nat, text: seq<Shown>, was: seq<Shown>, is_: seq<Shown>,
                                    gone: seq<Shown>, came: seq<Shown>)
    requires Walked(edits, true, start, text, was, is_)
    requires (forall x :: x in gone ==> !x.is_) && (forall x :: x in came ==> !x.was)
    ensures Walked(edits, true, start, text + came, was + gone, is_ + came)
  {
    hide IsDiff;
    var before :| IsDiff(edits, was[..start], before) && is_ == before + text;
    assert (was + gone)[..start] == was[..start];
    assert is_ + came == before + (text + came);
    assert forall k :: |was| <= k < |was + gone| ==> (was + gone)[k] in gone;
  }

  /** No item without text is visible both then and now. */
  ghost predicate NoneSilent(frags: seq<Fragment>, since: Version, undo: seq<UndoEntry>) {
    forall i :: 0 <= i < |frags| && frags[i].visible && WasVisible(frags[i].origin, DeletionSet(frags[i]), since, undo) ==> RunText(frags[i]) != []
  }

  /** Between two edits something is kept, and after the last one up to `end`. */
  ghost predicate Merged(edits: seq<TextEdit<Scalar>>, end: nat) {
    && (forall i :: 0 < i < |edits| ==> edits[i - 1].range.end < edits[i].range.start)
    && (edits != [] ==> edits[|edits| - 1].range.end < end)
  }

  lemma {:induction false} PlainAppend(changes: seq<TextEdit<Shown>>, e: TextEdit<Shown>)
    ensures Plain(changes + [e]) == Plain(changes) + [TextEdit(e.range, Scalars(e.text))]
  {
    hide Scalars;
  }

  lemma {:induction false} NothingListed(frags: seq<Fragment>, since: Version, undo: seq<UndoEntry>)
    ensures OldShown(frags[..0], since, undo) == [] && NewShown(frags[..0], since, undo) == []
    ensures Listing(frags, 0, since, undo, [], [], false, 0, 0, 0, [], [])
  {
  }

  lemma {:induction false} ShownStep(frags: seq<Fragment>, i: nat, since: Version, undo: seq<UndoEntry>)
    requires i < |frags|
    ensures var run, was := RunShown(frags[i], since, undo), WasVisible(frags[i].origin, DeletionSet(frags[i]), since, undo);
            && OldShown(frags[..i + 1], since, undo) == OldShown(frags[..i], since, undo) + (if was then run else [])
            && NewShown(frags[..i + 1], since, undo) == NewShown(frags[..i], since, undo) + (if frags[i].visible then run else [])
            && |run| == |RunText(frags[i])| && Scalars(run) == RunText(frags[i])
            && (forall x :: x in run ==> x.was == was && x.is_ == frags[i].visible)
  {
    assert frags[..i + 1][..i] == frags[..i];
    RunShownIsText(frags[i], since, undo);
    hide WasVisible, DeletionSet, Scalars;
  }

  lemma {:induction false} MergedLater(edits: seq<TextEdit<Scalar>>, end: nat, later: nat)
    requires Merged(edits, end) && end <= later
    ensures Merged(edits, later)
  {
  }

  /** The walk before run `i`. */
  ghost predicate Listing(frags: seq<Fragment>, i: nat, since: Version, undo: seq<UndoEntry>, edits: seq<TextEdit<Scalar>>,
                          changes: seq<TextEdit<Shown>>, pending: bool, start: nat, end: nat, oldPos: nat, text: seq<Scalar>, items: seq<Shown>) {
    && i <= |frags| && oldPos == |OldShown(frags[..i], since, undo)| && edits == Plain(changes)
    && (pending ==> start <= end == oldPos && text == Scalars(items))
    && Walked(changes, pending, start, items, OldShown(frags[..i], since, undo), NewShown(frags[..i], since, undo))
    && (NoneSilent(frags, since, undo) ==> Merged(edits, if pending then start else oldPos))
  }

  /** A run visible then and now is kept; no edit is pending any more. */
  lemma {:induction false} ListKept(frags: seq<Fragment>, i: nat, since: Version, undo: seq<UndoEntry>, edits: seq<TextEdit<Scalar>>,
                                    changes: seq<TextEdit<Shown>>, start: nat, end: nat, oldPos: nat, text: seq<Scalar>, items: seq<Shown>)
    requires i < |frags| && frags[i].visible && WasVisible(frags[i].origin, DeletionSet(frags[i]), since, undo)
    requires oldPos == |OldShown(frags[..i], since, undo)| && edits == Plain(changes)
    requires IsDiff(changes, OldShown(frags[..i], since, undo), NewShown(frags[..i], since, undo))
    requires NoneSilent(frags, since, undo) ==> Merged(edits, oldPos + 1)
    ensures Listing(frags, i + 1, since, undo, edits, changes, false, start, end, oldPos + |RunText(frags[i])|, text, items)
  {
    ShownStep(frags, i, since, undo);
    DiffExtends(changes, OldShown(frags[..i], since, undo), NewShown(frags[..i], since, undo), RunShown(frags[i], since, undo));
    if NoneSilent(frags, since, undo) {
      KeptSomething(frags, i, since, undo);
      MergedLater(edits, oldPos + 1, oldPos + |RunText(frags[i])|);
    }
    hide OldShown, NewShown, RunShown, IsDiff, WasVisible, DeletionSet, RunText, Scalars, Plain, Merged, NoneSilent;
  }

  lemma {:induction false} ListBegin(frags: seq<Fragment>, i: nat, since: Version, undo: seq<UndoEntry>, edits: seq<TextEdit<Scalar>>,
                                     changes: seq<TextEdit<Shown>>, start: nat, end: nat, oldPos: nat, text: seq<Scalar>, items: seq<Shown>)
    requires Listing(frags, i, since, undo, edits, changes, false, start, end, oldPos, text, items)
    ensures Listing(frags, i, since, undo, edits, changes, true, oldPos, oldPos, oldPos, [], [])
  {
    hide OldShown, NewShown, IsDiff, Scalars, Plain, Merged, NoneSilent;
    NoScalars();
    WalkBegin(changes, OldShown(frags[..i], since, undo), NewShown(frags[..i], since, undo));
  }

  /** A run visible then goes into the pending edit's range. */
  lemma {:induction false} ListGone(frags: seq<Fragment>, i: nat, since: Version, undo: seq<UndoEntry>, edits: seq<TextEdit<Scalar>>,
                                    changes: seq<TextEdit<Shown>>, start: nat, end: nat, oldPos: nat, text: seq<Scalar>, items: seq<Shown>)
    requires i < |frags| && Listing(frags, i, since, undo, edits, changes, true, start, end, oldPos, text, items)
    requires !frags[i].visible && WasVisible(frags[i].origin, DeletionSet(frags[i]), since, undo)
    ensures var n := |RunText(frags[i])|;
            Listing(frags, i + 1, since, undo, edits, changes, true, start, end + n, oldPos + n, text, items)
  {
    ShownStep(frags, i, since, undo);
    var was, is_ := OldShown(frags[..i], since, undo), NewShown(frags[..i], since, undo);
    hide OldShown, NewShown, RunShown, IsDiff, WasVisible, DeletionSet, RunText, Scalars, Plain, Merged, NoneSilent;
    WalkMore(changes, start, items, was, is_, RunShown(frags[i], since, undo), []);
    assert items + [] == items && is_ + [] == is_;
    hide Walked;
  }

  /** A run visible now goes into the pending edit's text. */
  lemma {:induction false} ListCame(frags: seq<Fragment>, i: nat, since: Version, undo: seq<UndoEntry>, edits: seq<TextEdit<Scalar>>,
                                    changes: seq<TextEdit<Shown>>, start: nat, end: nat, oldPos: nat, text: seq<Scalar>, items: seq<Shown>)
    requires i < |frags| && Listing(frags, i, since, undo, edits, changes, true, start, end, oldPos, text, items)
    requires frags[i].visible && !WasVisible(frags[i].origin, DeletionSet(frags[i]), since, undo)
    ensures Listing(frags, i + 1, since, undo, edits, changes, true, start, end, oldPos, text + RunText(frags[i]),
                    items + RunShown(frags[i], since, undo))
  {
    ShownStep(frags, i, since, undo);
    var was, is_ := OldShown(frags[..i], since, undo), NewShown(frags[..i], since, undo);
    hide OldShown, NewShown, RunShown, IsDiff, WasVisible, DeletionSet, RunText, Scalars, Plain, Merged, NoneSilent;
    WalkMore(changes, start, items, was, is_, [], RunShown(frags[i], since, undo));
    ScalarsConcat(items, RunShown(frags[i], since, undo));
    assert was + [] == was;
    hide Walked;
  }

  /** A run visible neither then nor now is passed over. */
  lemma {:induction false} ListNeither(frags: seq<Fragment>, i: nat, since: Version, undo: seq<UndoEntry>, edits: seq<TextEdit<Scalar>>,
                                       changes: seq<TextEdit<Shown>>, pending: bool, start: nat, end: nat, oldPos: nat, text: seq<Scalar>,
                                       items: seq<Shown>)
    requires i < |frags| && Listing(frags, i, since, undo, edits, changes, pending, start, end, oldPos, text, items)
    requires !frags[i].visible && !WasVisible(frags[i].origin, DeletionSet(frags[i]), since, undo)
    ensures Listing(frags, i + 1, since, undo, edits, changes, pending, start, end, oldPos, text, items)
  {
    ShownStep(frags, i, since, undo);
    var was, is_ := OldShown(frags[..i], since, undo), NewShown(frags[..i], since, undo);
    assert was + [] == was && is_ + [] == is_;
    hide OldShown, NewShown, RunShown, IsDiff, WasVisible, DeletionSet, RunText, Scalars, Plain, Merged, NoneSilent, Walked;
  }

  /** End a pending edit, if it changes anything. */
  method Flush(ghost frags: seq<Fragment>, ghost i: nat, ghost since: Version, ghost undo: seq<UndoEntry>, edits: seq<TextEdit<Scalar>>,
               ghost changes: seq<TextEdit<Shown>>, pending: bool, start: nat, end: nat, ghost oldPos: nat, text: seq<Scalar>, ghost items: seq<Shown>)
    returns (r: seq<TextEdit<Scalar>>, ghost made: seq<TextEdit<Shown>>)
    requires Listing(frags, i, since, undo, edits, changes, pending, start, end, oldPos, text, items)
    ensures r == Plain(made) && IsDiff(made, OldShown(frags[..i], since, undo), NewShown(frags[..i], since, undo))
    ensures NoneSilent(frags, since, undo) ==> Merged(r, oldPos + 1)
  {
    hide OldShown, NewShown, IsDiff, Plain, NoneSilent, Scalars;
    r, made := edits, changes;
    if !pending { return; }
    WalkFlush(changes, start, items, OldShown(frags[..i], since, undo), NewShown(frags[..i], since, undo));
    if start != end || text != [] {
      PlainAppend(changes, TextEdit(Range(start, end), items));
      r, made := edits + [TextEdit(Range(start, end), text)], changes + [TextEdit(Range(start, end), items)];
    }
  }

  /** Compare every run's visibility then and now. The edits are edits of the visible
      items: what they replace has gone, what they put has come, everything else is
      there then and now. Changes with nothing kept between them are one edit. */
  method ListEdits(frags: seq<Fragment>, since: Version, undo: seq<UndoEntry>)
    returns (edits: seq<TextEdit<Scalar>>, ghost changes: seq<TextEdit<Shown>>)
    ensures IsPatch(edits, OldText(frags, since, undo), Text(Items(frags)))
    ensures edits == Plain(changes) && IsDiff(changes, OldShown(frags, since, undo), NewShown(frags, since, undo))
    ensures NoneSilent(frags, since, undo) ==> forall i :: 0 < i < |edits| ==> edits[i - 1].range.end < edits[i].range.start
  {
    edits, changes := [], [];
    var oldPos: nat, start: nat, end: nat := 0, 0, 0;
    var pending, text := false, [];
    ghost var items: seq<Shown> := [];
    NothingListed(frags, since, undo);
    hide Listing, IsDiff, IsPatch, WasVisible, DeletionSet, RunText, OldShown, NewShown, OldText, Text, Items, Plain, NoneSilent, Merged;
    for i := 0 to |frags|
      invariant Listing(frags, i, since, undo, edits, changes, pending, start, end, oldPos, text, items)
    {
      var f := frags[i];
      var wasVisible := RunWasVisible(f, since, undo);
      if wasVisible && f.visible {
        ListedAt(frags, i, since, undo, edits, changes, pending, start, end, oldPos, text, items);
        edits, changes := Flush(frags, i, since, undo, edits, changes, pending, start, end, oldPos, text, items);
        pending, text := false, [];
        ListKept(frags, i, since, undo, edits, changes, start, end, oldPos, text, items);
        oldPos := oldPos + |RunText(f)|;
      } else if wasVisible || f.visible {
        if !pending {
          ListBegin(frags, i, since, undo, edits, changes, start, end, oldPos, text, items);
          pending, start, end, text, items := true, oldPos, oldPos, [], [];
        }
        if wasVisible {
          ListGone(frags, i, since, undo, edits, changes, start, end, oldPos, text, items);
          end, oldPos := end + |RunText(f)|, oldPos + |RunText(f)|;
        } else {
          ListCame(frags, i, since, undo, edits, changes, start, end, oldPos, text, items);
          text, items := text + RunText(f), items + RunShown(f, since, undo);
        }
      } else {
        ListNeither(frags, i, since, undo, edits, changes, pending, start, end, oldPos, text, items);
      }
    }
    edits, changes := Flush(frags, |frags|, since, undo, edits, changes, pending, start, end, oldPos, text, items);
    assert frags[..|frags|] == frags;
    DiffIsPatch(changes, OldShown(frags, since, undo), NewShown(frags, since, undo));
    ShownIsText(frags, since, undo);
    NewTextIsText(frags);
    MergedApart(edits, oldPos + 1);
  }

  lemma {:induction false} ListedAt(frags: seq<Fragment>, i: nat, since: Version, undo: seq<UndoEntry>, edits: seq<TextEdit<Scalar>>,
                                    changes: seq<TextEdit<Shown>>, pending: bool, start: nat, end: nat, oldPos: nat, text: seq<Scalar>,
                                    items: seq<Shown>)
    requires Listing(frags, i, since, undo, edits, changes, pending, start, end, oldPos, text, items)
    ensures i <= |frags| && oldPos == |OldShown(frags[..i], since, undo)|
  {
  }

  lemma {:induction false} MergedApart(edits: seq<TextEdit<Scalar>>, end: nat)
    ensures Merged(edits, end) ==> forall i :: 0 < i < |edits| ==> edits[i - 1].range.end < edits[i].range.start
  {
  }

  lemma {:induction false} KeptSomething(frags: seq<Fragment>, i: nat, since: Version, undo: seq<UndoEntry>)
    requires NoneSilent(frags, since, undo) && i < |frags| && frags[i].visible
    requires WasVisible(frags[i].origin, DeletionSet(frags[i]), since, undo)
    ensures |RunText(frags[i])| > 0
  {
  }

  /** The scalars of edited items are edited scalars. */
  lemma {:induction false} DiffIsPatch(changes: seq<TextEdit<Shown>>, was: seq<Shown>, is_: seq<Shown>)
    requires IsDiff(changes, was, is_)
    ensures IsPatch(Plain(changes), Scalars(was), Scalars(is_))
  {
    assert RangesOf(Plain(changes)) == RangesOf(changes);
    EditedScalars(was, RangesOf(changes), NewsOf(changes));
    assert NewsOf(Plain(changes)) == ScalarsOf(NewsOf(changes));
    hide Edited, InSequence, Scalars;
  }

  function ScalarsOf(news: seq<seq<Shown>>): (r: seq<seq<Scalar>>)
    ensures |r| == |news|
  {
    seq(|news|, i requires 0 <= i < |news| => Scalars(news[i]))
  }

  lemma {:induction false} EditedScalars(was: seq<Shown>, ranges: seq<Range>, news: seq<seq<Shown>>)
    requires |ranges| == |news| && InSequence(ranges, |was|)
    ensures Scalars(Edited(was, ranges, news)) == Edited(Scalars(was), ranges, ScalarsOf(news))
    decreases |ranges|
  {
    if ranges != [] {
      var last := |ranges| - 1;
      var r := ranges[last];
      EditedUnfold(was, ranges, news);
      EditedUnfold(Scalars(was), ranges, ScalarsOf(news));
      EditedScalars(was[..r.start], ranges[..last], news[..last]);
      hide Edited, InSequence;
      assert Scalars(was)[..r.start] == Scalars(was[..r.start]) && Scalars(was)[r.end..] == Scalars(was[r.end..]);
      assert ScalarsOf(news)[..last] == ScalarsOf(news[..last]);
      hide Scalars;
      ScalarsConcat(Edited(was[..r.start], ranges[..last], news[..last]), news[last]);
      ScalarsConcat(Edited(was[..r.start], ranges[..last], news[..last]) + news[last], was[r.end..]);
    }
  }

  /** Edits still to be made see the text before them as it was. */
  ghost predicate Applying(text: seq<Scalar>, edits: seq<TextEdit<Scalar>>, k: nat, r: seq<Scalar>, front: seq<Scalar>, rest: seq<Scalar>)
    requires k <= |edits| && InSequence(RangesOf(edits), |text|)
  {
    && r == front + rest && InSequence(RangesOf(edits[..k]), |front|)
    && Edited(text, RangesOf(edits), NewsOf(edits)) == Edited(front, RangesOf(edits[..k]), NewsOf(edits[..k])) + rest
  }

  lemma {:induction false} ApplyStep(text: seq<Scalar>, edits: seq<TextEdit<Scalar>>, k: nat, r: seq<Scalar>, front: seq<Scalar>, rest: seq<Scalar>)
    requires k < |edits| && InSequence(RangesOf(edits), |text|) && Applying(text, edits, k + 1, r, front, rest)
    ensures var e := edits[k];
            && e.range.start <= e.range.end <= |front| <= |r|
            && Applying(text, edits, k, r[..e.range.start] + e.text + r[e.range.end..],
                        front[..e.range.start], e.text + front[e.range.end..] + rest)
  {
    var e, some := edits[k], edits[..k + 1];
    assert some[k] == e && some[..k] == edits[..k];
    assert RangesOf(some)[..k] == RangesOf(edits[..k]) && NewsOf(some)[..k] == NewsOf(edits[..k]);
    EditedUnfold(front, RangesOf(some), NewsOf(some));
    assert RangesOf(some)[k] == e.range && NewsOf(some)[k] == e.text;
    hide Edited;
    ReplaceInFront(front, rest, e.range.start, e.range.end, e.text);
    ThreeAndRest(Edited(front[..e.range.start], RangesOf(edits[..k]), NewsOf(edits[..k])), e.text, front[e.range.end..], rest);
  }

  lemma {:induction false} ReplaceInFront<T>(front: seq<T>, rest: seq<T>, s: nat, e: nat, text: seq<T>)
    requires s <= e <= |front|
    ensures (front + rest)[..s] + text + (front + rest)[e..] == front[..s] + (text + front[e..] + rest)
  {
    assert (front + rest)[e..] == front[e..] + rest && (front + rest)[..s] == front[..s];
  }

  lemma {:induction false} ThreeAndRest<T>(a: seq<T>, b: seq<T>, c: seq<T>, d: seq<T>)
    ensures a + b + c + d == a + (b + c + d)
  {
  }

  /** Apply edits from the last to the first, each at its original offsets. */
  method ApplyEdits(text: seq<Scalar>, edits: seq<TextEdit<Scalar>>) returns (r: seq<Scalar>)
    requires InSequence(RangesOf(edits), |text|)
    ensures r == Edited(text, RangesOf(edits), NewsOf(edits))
  {
    r := text;
    ghost var front, rest: seq<Scalar> := text, [];
    var k := |edits|;
    assert edits[..k] == edits && text + [] == text;
    assert Edited(text, RangesOf(edits), NewsOf(edits)) + [] == Edited(text, RangesOf(edits), NewsOf(edits));
    while k > 0
      invariant k <= |edits| && Applying(text, edits, k, r, front, rest)
    {
      k := k - 1;
      var e := edits[k];
      ApplyStep(text, edits, k, r, front, rest);
      r := r[..e.range.start] + e.text + r[e.range.end..];
      front, rest := front[..e.range.start], e.text + front[e.range.end..] + rest;
    }
    assert edits[..0] == [];
  }
}
