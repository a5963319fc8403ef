/** Operations a replica mints and its own session cannot publish: the frame that
    carries an operation has limits the engine does not know. */
module LongEdits {
  import opened Ids
  import opened Bytes
  import opened VersionVectors
  import opened FugueOrder
  import opened Histories
  import opened LocalUndo
  import opened EditGroups
  import opened FrameLimits
  import opened EngineFrames
  import Clock
  import Fragments
  import Representation
  import UndoHistories
  import Json
  import JsonLaws
  import OperationFrames
  import WireOperations
  import Utf

  // ---- The undo of a group -----------------------------------------------

  /** A frame in order that carries the undo of a group can be encoded exactly if the
      group has few enough targets. */
  lemma {:induction false} UndoOfGroup(w: WireOperations.WireOperation, o: Operation, undo: seq<Representation.UndoEntry>, g: UndoHistories.Group)
    requires CarriesUndo(w, o) && o.counts == CountsFor(undo, TargetsOf(g)) && OperationFrames.InOrder(w)
    ensures OperationFrames.Encodable(w) <==> 10 + |w.version| + 5 * |TargetsOf(g)| <= Json.MAX_ELEMENTS
  {
    hide OperationFrames.InOrder, OperationFrames.Encodable;
    UndoIsEncodable(w);
  }

  // ---- One long insertion ------------------------------------------------

  function LongText(n: nat): seq<Byte> {
    seq(n, i => 0x61)
  }

  /** The wire forms of a long insertion and of its undo. */
  function WireInsertion(n: nat): WireOperations.WireOperation
    requires n < U32
  {
    WireOperations.WireEdit(Identity(1, n + 1), [], Identity(1, n + 1), false, [WireOperations.Span(0, 0)], [LongText(n)],
                            [WireOperations.WireRun(Identity(1, 1), Link(None, Right, None), LongText(n), n as WireOperations.Word32, false)], [])
  }

  function WireTargets(n: nat): seq<WireOperations.Counted> {
    seq(n, i requires 0 <= i < n => WireOperations.Counted(Identity(1, i + 1), 1))
  }

  function WireUndoOf(n: nat): WireOperations.WireOperation {
    WireOperations.WireUndo(Identity(1, n + 2), [Clock.Pair(1, n + 1)], WireTargets(n))
  }

  lemma {:induction false} LongTargets(n: nat)
    requires n > 0
    ensures var g := GroupOf(LongInsertion(n), 0);
            |TargetsOf(g)| == n && forall i :: 0 <= i < n ==> TargetsOf(g)[i] == Identity(1, i + 1)
  {
    var r := LongInsertion(n).inserts[0];
    assert [r][..0] == [];
    assert InsertedIds([r]) == InsertedIds([]) + RunIdentities(r);
    assert RunLength(r) == n;
  }

  lemma {:induction false} OnePair(p: Clock.Pair)
    requires p.counter > 0
    ensures Clock.Canonical([p]) && Clock.ViewOf([p]) == map[p.actor := p.counter]
  {
    Clock.LookupAt([p], 0);
    Extensional(Clock.ViewOf([p]), map[p.actor := p.counter]);
  }

  lemma {:induction false} LongUndoCarried(n: nat)
    requires n > 0
    ensures CarriesUndo(WireUndoOf(n), LongUndo(n))
  {
    OnePair(Clock.Pair(1, n + 1));
    LongTargets(n);
    hide TargetsOf, GroupOf;
    var ts := TargetsOf(GroupOf(LongInsertion(n), 0));
    forall i | 0 <= i < n
      ensures CountsFor([], ts)[i] == UndoCount(ts[i], 1)
    {
      assert Representation.MaxCount([], ts[i]) == 0;
    }
  }

  lemma {:induction false} LongUndoInOrder(n: nat)
    requires 0 < n <= OperationFrames.MAX_TARGETS
    ensures OperationFrames.InOrder(WireUndoOf(n))
  {
    var ps := [Clock.Pair(1, n + 1)];
    assert WireOperations.Head(ps, 1) == n + 1;
  }

  lemma {:induction false} TooManyTargets(n: nat)
    requires n > OperationFrames.MAX_TARGETS
    ensures !OperationFrames.Encodable(WireUndoOf(n))
  {
    assert |WireUndoOf(n).counts| == n;
  }

  /** The undo of an insertion of `n` scalars can be encoded by the session that
      minted it exactly up to this many, far below what other replicas accept. */
  lemma {:induction false} LongUndoIsEncodable(n: nat)
    requires n > 0
    ensures CarriesUndo(WireUndoOf(n), LongUndo(n))
    ensures OperationFrames.Encodable(WireUndoOf(n)) <==> n <= 19_997
  {
    LongUndoCarried(n);
    if n <= OperationFrames.MAX_TARGETS {
      LongUndoInOrder(n);
      LongTargets(n);
      hide OperationFrames.InOrder, OperationFrames.Encodable, CarriesUndo, TargetsOf, GroupOf;
      UndoOfGroup(WireUndoOf(n), LongUndo(n), [], GroupOf(LongInsertion(n), 0));
    } else {
      TooManyTargets(n);
    }
  }

  lemma {:induction false} LongTextIs(n: nat)
    ensures Utf.Utf8(seq(n, i => 0x61)) == LongText(n) && JsonLaws.AllLiteral(LongText(n))
  {
    var cs: seq<Fragments.Scalar> := seq(n, i => 0x61);
    if n > 0 {
      LongTextIs(n - 1);
      var rest: seq<Fragments.Scalar> := seq(n - 1, i => 0x61);
      assert cs[1..] == rest;
      assert Utf.Encoded(0x61) == [0x61];
      assert LongText(n) == [0x61] + LongText(n - 1);
    } else {
      assert cs == [];
    }
  }

  lemma {:induction false} LongInsertionCarried(n: nat)
    requires 0 < n < U32
    ensures CarriesEdit(WireInsertion(n), LongInsertion(n))
  {
    LongTextIs(n);
    NoPairs();
  }

  lemma {:induction false} NoPairs()
    ensures Clock.Canonical([]) && Clock.ViewOf([]) == map[]
  {
  }

  lemma {:induction false} LongInsertionInOrder(n: nat)
    requires 0 < n <= Json.MAX_TEXT
    ensures OperationFrames.InOrder(WireInsertion(n))
  {
    var o := WireInsertion(n);
    LongRunFits(n);
    LongTiles(n);
    assert o.inserted[..0] == [];
    assert WireOperations.TotalLength(o.inserted) == n;
    hide Utf.Utf8, Utf.IsUtf8, LongText, WireOperations.Tiles, WireOperations.RunFits;
    assert WireOperations.EditFits(o);
  }

  lemma {:induction false} LongRunFits(n: nat)
    requires 0 < n < U32
    ensures WireOperations.RunFits(WireInsertion(n).inserted[0], WireInsertion(n)) && Utf.IsUtf8(LongText(n))
  {
    LongTextIs(n);
    var cs: seq<Fragments.Scalar> := seq(n, i => 0x61);
    assert Utf.Utf8(cs) == LongText(n) && |cs| == n;
    hide Utf.Utf8, LongText;
  }

  lemma {:induction false} LongTiles(n: nat)
    requires 0 < n < U32
    ensures WireOperations.Tiles(WireOperations.IntervalsOf(WireInsertion(n).inserted), 1, n + 1)
  {
    var xs := WireOperations.IntervalsOf(WireInsertion(n).inserted);
    assert xs == [xs[0]] && xs[..0] == [];
  }

  /** The insertion itself can be encoded exactly up to this many scalars. */
  lemma {:induction false} LongInsertionIsEncodable(n: nat)
    requires 0 < n < U32
    ensures CarriesEdit(WireInsertion(n), LongInsertion(n))
    ensures OperationFrames.Encodable(WireInsertion(n)) <==> n <= 4_194_105
  {
    LongInsertionCarried(n);
    LongTextIs(n);
    JsonLaws.LiteralIsUnescaped(LongText(n));
    NoPairs();
    if n <= Json.MAX_TEXT {
      LongInsertionInOrder(n);
      hide OperationFrames.InOrder, OperationFrames.Encodable, CarriesEdit, LongText;
      InsertionIsEncodable(WireInsertion(n));
    } else {
      TooLong(n);
    }
  }

  lemma {:induction false} TooLong(n: nat)
    requires Json.MAX_TEXT < n < U32
    ensures !OperationFrames.Encodable(WireInsertion(n))
  {
    assert |WireInsertion(n).newText[0]| == n;
  }
}
