/** Undoing the latest groups one after the other and redoing them: what such a
    run leaves of stack, cursor, undo counts and document. */
module UndoRuns {
  import opened Ids
  import opened Fragments
  import opened Histories
  import opened Representation
  import opened UndoHistories
  import opened LocalUndo

  /** What an undo or redo changes of a replica. */
  datatype Turn = Turn(stack: seq<Group>, cursor: nat, undo: seq<UndoEntry>, items: seq<Item>)

  /** The latest active group was undone. */
  ghost predicate StepsBack(s: Turn, t: Turn) {
    && 0 < s.cursor <= |s.stack| && t.stack == s.stack && t.cursor == s.cursor - 1
    && Raised(s.undo, t.undo, TargetsOf(s.stack[t.cursor])) && t.items == ShowAll(s.items, t.undo)
  }

  /** The next undone group was redone. */
  ghost predicate StepsForth(s: Turn, t: Turn) {
    && s.cursor < |s.stack| && t.stack == s.stack && t.cursor == s.cursor + 1
    && Raised(s.undo, t.undo, TargetsOf(s.stack[s.cursor])) && t.items == ShowAll(s.items, t.undo)
  }

  /** Groups of distinct identities, so that naming one finds it. */
  ghost predicate NamesApart(stack: seq<Group>) {
    forall i, j :: 0 <= i < j < |stack| ==> stack[i].id != stack[j].id
  }

  /** Moving one group across the cursor leaves the identities distinct. */
  lemma {:induction false} MovedApart(stack: seq<Group>, cursor: nat, i: nat)
    requires NamesApart(stack) && cursor <= |stack|
    ensures i < cursor ==> NamesApart(Undoing(stack, cursor, i))
    ensures cursor <= i < |stack| ==> NamesApart(Redoing(stack, cursor, i))
  {
  }

  /** The active group of this identity went just past the cursor. */
  ghost predicate NamedUndone(stack: seq<Group>, cursor: nat, id: Identity, stack': seq<Group>) {
    exists i :: 0 <= i < cursor <= |stack| && stack[i].id == id && stack' == Undoing(stack, cursor, i)
  }

  /** The undone group of this identity went just before the cursor. */
  ghost predicate NamedRedone(stack: seq<Group>, cursor: nat, id: Identity, stack': seq<Group>) {
    exists i :: cursor <= i < |stack| && stack[i].id == id && stack' == Redoing(stack, cursor, i)
  }

  /** Naming the latest active group moves the cursor only. */
  lemma {:induction false} NamedLatestStays(stack: seq<Group>, cursor: nat, stack': seq<Group>)
    requires NamesApart(stack) && 0 < cursor <= |stack| && NamedUndone(stack, cursor, stack[cursor - 1].id, stack')
    ensures stack' == stack
  {
  }

  /** Naming the next undone group moves the cursor only. */
  lemma {:induction false} NamedNextStays(stack: seq<Group>, cursor: nat, stack': seq<Group>)
    requires NamesApart(stack) && cursor < |stack| && NamedRedone(stack, cursor, stack[cursor].id, stack')
    ensures stack' == stack
  {
  }

  /** A new operation's group has a new identity. */
  lemma {:induction false} NewNameIsApart(u: set<Operation>, was: set<Operation>, o: Operation, stack: seq<Group>, cursor: nat, g: Group)
    requires Honest(u + {o}) && o !in u && was <= u && NamesApart(stack) && cursor <= |stack| && g.id == o.timestamp
    requires forall h :: h in stack ==> GroupKnown(was, h)
    ensures NamesApart(Candidates(stack, cursor, g))
  {
    forall i | 0 <= i < cursor
      ensures stack[i].id != o.timestamp
    {
      assert GroupKnown(was, stack[i]);
      assert OperationKnown(was, stack[i].id);
      var p :| p in was && p.timestamp == stack[i].id;
      TimestampIsNew(u, o, p);
    }
  }

  lemma {:induction false} TimestampIsNew(u: set<Operation>, o: Operation, p: Operation)
    requires Honest(u + {o}) && o !in u && p in u
    ensures p.timestamp != o.timestamp
  {
    assert WellMinted(p, FirstCounter(p)) && WellMinted(o, FirstCounter(o));
    assert p in u + {o} && o in u + {o};
    if p.timestamp.actor == o.timestamp.actor { assert Histories.Precedes(o, p) || Histories.Precedes(p, o); }
  }

  /** `k` undos and as many redos. */
  ghost predicate BackAndForth(turns: seq<Turn>, k: nat) {
    && |turns| == 2 * k + 1
    && (forall i :: 0 <= i < k ==> StepsBack(turns[i], turns[i + 1]))
    && (forall i :: k <= i < 2 * k ==> StepsForth(turns[i], turns[i + 1]))
  }

  /** The document shows what the undo counts say. */
  ghost predicate ShowsCounts(s: Turn) {
    s.items == ShowAll(s.items, s.undo)
  }

  /** How the document came to be shown as it is. */
  ghost predicate ShowsBy(s: Turn, t: Turn) {
    t.items == ShowAll(s.items, t.undo)
  }

  lemma {:induction false} ShowsOn(s: Turn, t: Turn, r: Turn)
    requires ShowsBy(s, t) && r.items == ShowAll(t.items, r.undo)
    ensures ShowsBy(s, r)
  {
    ShownAgain(s.items, t.undo, r.undo);
  }

  lemma {:induction false} GoneBack(turns: seq<Turn>, i: nat)
    requires i < |turns| && (forall j :: 0 <= j < i ==> StepsBack(turns[j], turns[j + 1]))
    requires turns[0].cursor <= |turns[0].stack| && ShowsCounts(turns[0])
    ensures i <= turns[0].cursor && turns[i].stack == turns[0].stack && turns[i].cursor == turns[0].cursor - i
    ensures RaisedBy(turns[0].undo, turns[i].undo, Reversed(turns[0].stack[turns[0].cursor - i..turns[0].cursor]))
    ensures ShowsBy(turns[0], turns[i])
  {
    hide Raised, RaisedBy, Reversed, ShowAll, TargetsOf;
    var s := turns[0];
    if i == 0 {
      assert s.stack[s.cursor..s.cursor] == [];
      NothingRaised(s.undo);
    } else {
      GoneBack(turns, i - 1);
      assert StepsBack(turns[i - 1], turns[i]);
      var c := s.cursor - i;
      var later := s.stack[c + 1..s.cursor];
      RaisedOnce(s.undo, turns[i - 1].undo, turns[i].undo, Reversed(later), s.stack[c]);
      ReversedFront(s.stack[c], later);
      assert [s.stack[c]] + later == s.stack[c..s.cursor];
      ShowsOn(s, turns[i - 1], turns[i]);
    }
  }

  lemma {:induction false} NothingRaised(undo: seq<UndoEntry>)
    ensures Reversed([]) == [] && RaisedBy(undo, undo, [])
  {
  }

  lemma {:induction false} ReversedFront(g: Group, gs: seq<Group>)
    ensures Reversed([g] + gs) == Reversed(gs) + [g]
  {
    if gs == [] {
      assert [g] + gs == [g] && [g][..0] == [];
    } else {
      var n := |gs| - 1;
      ReversedFront(g, gs[..n]);
      assert ([g] + gs)[..|gs|] == [g] + gs[..n];
    }
  }

  lemma {:induction false} ReversedTwice(gs: seq<Group>)
    ensures Reversed(Reversed(gs)) == gs
  {
    if gs != [] {
      var n := |gs| - 1;
      ReversedTwice(gs[..n]);
      ReversedFront(gs[n], Reversed(gs[..n]));
      assert gs == gs[..n] + [gs[n]];
    }
  }

  lemma {:induction false} GoneForth(turns: seq<Turn>, k: nat, j: nat)
    requires BackAndForth(turns, k) && j <= k
    requires turns[0].cursor <= |turns[0].stack| && ShowsCounts(turns[0])
    ensures k <= turns[0].cursor
    ensures var s, t := turns[0], turns[k + j];
            && t.stack == s.stack && t.cursor == s.cursor - k + j && ShowsBy(s, t)
            && RaisedBy(s.undo, t.undo, Reversed(s.stack[s.cursor - k..s.cursor]) + s.stack[s.cursor - k..s.cursor - k + j])
  {
    hide Raised, RaisedBy, Reversed, ShowAll, TargetsOf;
    var s := turns[0];
    GoneBack(turns, k);
    var c := s.cursor - k;
    var back := Reversed(s.stack[c..s.cursor]);
    if j == 0 {
      assert back + s.stack[c..c] == back;
    } else {
      GoneForth(turns, k, j - 1);
      assert StepsForth(turns[k + j - 1], turns[k + j]);
      RaisedOnce(s.undo, turns[k + j - 1].undo, turns[k + j].undo, back + s.stack[c..c + j - 1], s.stack[c + j - 1]);
      assert back + s.stack[c..c + j - 1] + [s.stack[c + j - 1]] == back + s.stack[c..c + j];
      ShowsOn(s, turns[k + j - 1], turns[k + j]);
    }
  }

  lemma {:induction false} TurnCount(turns: seq<Turn>, k: nat)
    requires BackAndForth(turns, k)
    ensures |turns| == 2 * k + 1
  {
  }

  /** Undoing the latest `k` groups and redoing them restores stack and cursor,
      raises the count of every target by two for each of these groups that names
      it, and shows the document as it was. */
  lemma {:induction false} UndosAndRedosRestore(turns: seq<Turn>, k: nat)
    requires BackAndForth(turns, k)
    requires turns[0].cursor <= |turns[0].stack| && ShowsCounts(turns[0])
    ensures var s, t := turns[0], turns[2 * k];
            && k <= s.cursor && t.stack == s.stack && t.cursor == s.cursor && t.items == s.items
            && forall x :: MaxCount(t.undo, x) == MaxCount(s.undo, x) + 2 * Hits(s.stack[s.cursor - k..s.cursor], x)
  {
    hide BackAndForth, RaisedBy, Reversed, ShowAll, TargetsOf, Hits, MaxCount;
    assert |turns| == 2 * k + 1 by { TurnCount(turns, k); }
    var s, t := turns[0], turns[2 * k];
    GoneForth(turns, k, k);
    var gs := s.stack[s.cursor - k..s.cursor];
    ReversedTwice(gs);
    UndoRedoCancels(s.items, s.undo, t.undo, Reversed(gs));
    forall x
      ensures Hits(Reversed(gs), x) == Hits(gs, x)
    {
      HitsReversed(gs, x);
    }
  }
}
