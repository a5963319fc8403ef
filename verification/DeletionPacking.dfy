/** How many deletion runs a local edit's operation gets: the deleted identities,
    or the pieces of runs they come in, are put in order, and one that continues
    the one before it is joined to it. */
module DeletionPacking {
  import opened Ids
  import opened Histories
  import opened Sorting

  /** `b` starts where `a` ends. */
  predicate Continues(a: DeletionRun, b: DeletionRun) {
    a.first.actor == b.first.actor && a.first.counter + a.count == b.first.counter
  }

  ghost predicate StrictlyOrdered(s: seq<DeletionRun>) {
    forall i, j :: 0 <= i < j < |s| ==> IdLess(s[i].first, s[j].first)
  }

  /** The pieces of a list that do not continue the one before them. */
  function Breaks(s: seq<DeletionRun>): nat {
    if s == [] then 0
    else Breaks(s[..|s| - 1]) + if |s| > 1 && Continues(s[|s| - 2], s[|s| - 1]) then 0 else 1
  }

  /** The piece continues the one that comes just before it in order. */
  ghost predicate Joined(pieces: set<DeletionRun>, x: DeletionRun) {
    exists p :: p in pieces && Continues(p, x) && NothingBetween(pieces, p, x)
  }

  ghost predicate NothingBetween(pieces: set<DeletionRun>, p: DeletionRun, x: DeletionRun) {
    IdLess(p.first, x.first) && forall q :: q in pieces ==> !(IdLess(p.first, q.first) && IdLess(q.first, x.first))
  }

  /** The pieces a packed list has a run for. */
  ghost function Heads(pieces: set<DeletionRun>): set<DeletionRun> {
    set x | x in pieces && !Joined(pieces, x)
  }

  ghost function PiecesOf(s: seq<DeletionRun>): set<DeletionRun> {
    set x | x in s
  }

  /** Identities as pieces of one. */
  ghost function Singles(ids: set<Identity>): set<DeletionRun> {
    set id | id in ids :: DeletionRun(id, 1)
  }

  /** A list in order breaks once for each head, so how many runs there are depends
      on the set only. */
  lemma {:induction false} BreaksAreHeads(s: seq<DeletionRun>)
    requires StrictlyOrdered(s) && forall x :: x in s ==> x.count > 0
    ensures Breaks(s) == |Heads(PiecesOf(s))|
  {
    if s == [] {
      assert Heads(PiecesOf(s)) == {};
    } else {
      var init, x := s[..|s| - 1], s[|s| - 1];
      BreaksAreHeads(init);
      LastHead(s);
      assert x !in Heads(PiecesOf(init)) by { LastIsNew(s); }
    }
  }

  lemma {:induction false} LastIsNew(s: seq<DeletionRun>)
    requires StrictlyOrdered(s) && s != []
    ensures s[|s| - 1] !in PiecesOf(s[..|s| - 1])
  {
  }

  lemma {:induction false} LastHead(s: seq<DeletionRun>)
    requires StrictlyOrdered(s) && s != [] && forall x :: x in s ==> x.count > 0
    ensures var x := s[|s| - 1];
            Heads(PiecesOf(s)) == Heads(PiecesOf(s[..|s| - 1])) + if |s| > 1 && Continues(s[|s| - 2], x) then {} else {x}
  {
    var init, x := s[..|s| - 1], s[|s| - 1];
    var all, before := PiecesOf(s), PiecesOf(init);
    assert s == init + [x];
    forall y | y in before
      ensures Joined(all, y) <==> Joined(before, y)
    {
      OldJoined(s, y);
    }
    LastJoined(s);
    LastIsNew(s);
    hide Joined, Continues, StrictlyOrdered;
  }

  /** What comes later does not matter to a piece. */
  lemma {:induction false} OldJoined(s: seq<DeletionRun>, y: DeletionRun)
    requires StrictlyOrdered(s) && s != [] && y in s[..|s| - 1]
    ensures Joined(PiecesOf(s), y) <==> Joined(PiecesOf(s[..|s| - 1]), y)
  {
    var init, x := s[..|s| - 1], s[|s| - 1];
    assert s == init + [x];
    var i :| 0 <= i < |init| && init[i] == y;
    assert IdLess(s[i].first, s[|s| - 1].first);
    if Joined(PiecesOf(s), y) {
      var p :| p in PiecesOf(s) && Continues(p, y) && NothingBetween(PiecesOf(s), p, y);
      assert p in PiecesOf(init) && NothingBetween(PiecesOf(init), p, y);
    }
    if Joined(PiecesOf(init), y) {
      var p :| p in PiecesOf(init) && Continues(p, y) && NothingBetween(PiecesOf(init), p, y);
      assert NothingBetween(PiecesOf(s), p, y);
    }
  }

  lemma {:induction false} LastJoined(s: seq<DeletionRun>)
    requires StrictlyOrdered(s) && s != [] && forall x :: x in s ==> x.count > 0
    ensures Joined(PiecesOf(s), s[|s| - 1]) <==> |s| > 1 && Continues(s[|s| - 2], s[|s| - 1])
  {
    var all, x := PiecesOf(s), s[|s| - 1];
    if |s| > 1 && Continues(s[|s| - 2], x) {
      assert s[|s| - 2] in all && NothingBetween(all, s[|s| - 2], x);
    }
    if Joined(all, x) {
      var p :| p in all && Continues(p, x) && NothingBetween(all, p, x);
      var i :| 0 <= i < |s| && s[i] == p;
      if i < |s| - 2 { assert s[|s| - 2] in all; }
    }
  }

  // ---- One identity at a time, or piece by piece -------------------------

  function AsPieces(ids: seq<Identity>): (s: seq<DeletionRun>)
    ensures |s| == |ids| && forall i :: 0 <= i < |ids| ==> s[i] == DeletionRun(ids[i], 1)
  {
    seq(|ids|, i requires 0 <= i < |ids| => DeletionRun(ids[i], 1))
  }

  lemma {:induction false} PiecesOfIds(ids: seq<Identity>)
    ensures PiecesOf(AsPieces(ids)) == Singles(set id | id in ids)
  {
    forall id | id in ids
      ensures DeletionRun(id, 1) in AsPieces(ids)
    {
      var i :| 0 <= i < |ids| && ids[i] == id;
      assert AsPieces(ids)[i] == DeletionRun(id, 1);
    }
  }

  /** A stretch of consecutive identities breaks at its start only. */
  lemma {:induction false} StretchBreaks(ids: seq<Identity>, i: nat, count: nat)
    requires 0 < count && i + count <= |ids|
    requires forall j :: i < j < i + count ==> ids[j] == Identity(ids[j - 1].actor, ids[j - 1].counter + 1)
    requires i > 0 ==> ids[i] != Identity(ids[i - 1].actor, ids[i - 1].counter + 1)
    ensures Breaks(AsPieces(ids[..i + count])) == Breaks(AsPieces(ids[..i])) + 1
  {
    var n := i + count - 1;
    var s := AsPieces(ids[..n + 1]);
    assert s[..n] == AsPieces(ids[..n]);
    if count > 1 {
      StretchBreaks(ids, i, count - 1);
      assert s[n] == DeletionRun(ids[n], 1) && s[n - 1] == DeletionRun(ids[n - 1], 1);
    } else if n > 0 {
      assert s[n] == DeletionRun(ids[n], 1) && s[n - 1] == DeletionRun(ids[n - 1], 1);
    }
  }

  lemma {:induction false} FewElements<T>(xs: seq<T>)
    requires |xs| <= |set x | x in xs|
    ensures NoneTwice(xs)
  {
    if xs != [] {
      var init, x := xs[..|xs| - 1], xs[|xs| - 1];
      assert (set y | y in xs) == (set y | y in init) + {x};
      ElementsBound(init);
      FewElements(init);
      assert x !in init;
    }
  }

  lemma {:induction false} ElementsBound<T>(xs: seq<T>)
    ensures |set x | x in xs| <= |xs|
  {
    if xs != [] {
      var init, x := xs[..|xs| - 1], xs[|xs| - 1];
      ElementsBound(init);
      assert (set y | y in xs) == (set y | y in init) + {x};
    }
  }

  /** Identities of two actors whose counters interleave. Taken one by one in order
      of counters, no two are joined; as pieces of runs, the two of one actor are
      one piece; and in order of actors they would be one run as well. */
  lemma {:induction false} InterleavedStayApart(a: ActorId, b: ActorId, c: nat)
    requires a < b
    ensures var x, y, z := Identity(a, c), Identity(b, c), Identity(a, c + 1);
            && |Heads(Singles({x, y, z}))| == 3
            && |Heads({DeletionRun(x, 2), DeletionRun(y, 1)})| == 2
            && Breaks(AsPieces([x, z, y])) == 2
  {
    var x, y, z := Identity(a, c), Identity(b, c), Identity(a, c + 1);
    var ids := AsPieces([x, y, z]);
    assert ids == [DeletionRun(x, 1), DeletionRun(y, 1), DeletionRun(z, 1)];
    BreaksAreHeads(ids);
    assert PiecesOf(ids) == Singles({x, y, z});
    BreaksOfThree(ids);
    var two := [DeletionRun(x, 2), DeletionRun(y, 1)];
    BreaksAreHeads(two);
    assert PiecesOf(two) == {DeletionRun(x, 2), DeletionRun(y, 1)};
    BreaksOfTwo(two);
    BreaksOfThree(AsPieces([x, z, y]));
  }

  lemma {:induction false} BreaksOfTwo(s: seq<DeletionRun>)
    requires |s| == 2
    ensures Breaks(s) == 1 + if Continues(s[0], s[1]) then 0 else 1
  {
    var one := s[..1];
    assert one[..0] == [];
    assert Breaks(one) == 1;
  }

  lemma {:induction false} BreaksOfThree(s: seq<DeletionRun>)
    requires |s| == 3
    ensures Breaks(s) == 1 + (if Continues(s[0], s[1]) then 0 else 1) + (if Continues(s[1], s[2]) then 0 else 1)
  {
    BreaksOfTwo(s[..2]);
  }

  // ---- Pieces never take more runs ---------------------------------------

  /** Disjoint pieces of just these identities. */
  ghost predicate Cuts(pieces: set<DeletionRun>, ids: set<Identity>) {
    && (forall x :: x in pieces ==> x.count > 0)
    && (forall x, y, id :: x in pieces && y in pieces && InDeletion(x, id) && InDeletion(y, id) ==> x == y)
    && (forall x, id :: x in pieces && InDeletion(x, id) ==> id in ids)
    && (forall id :: id in ids ==> exists x :: x in pieces && InDeletion(x, id))
  }

  /** The identity a head of the pieces stands for among the heads of the
      identities: its own first, or one inside the piece it continues, where
      another actor's identity comes between. */
  ghost predicate StandsFor(pieces: set<DeletionRun>, x: DeletionRun, id: Identity) {
    || id == x.first
    || exists y :: y in pieces && Continues(y, x) && InDeletion(y, id) && id != y.first
  }

  lemma {:induction false} HeadStands(pieces: set<DeletionRun>, ids: set<Identity>, x: DeletionRun) returns (id: Identity)
    requires Cuts(pieces, ids) && x in Heads(pieces)
    ensures StandsFor(pieces, x, id) && DeletionRun(id, 1) in Heads(Singles(ids))
  {
    id := x.first;
    assert InDeletion(x, id);
    if Joined(Singles(ids), DeletionRun(id, 1)) {
      var s :| s in Singles(ids) && Continues(s, DeletionRun(id, 1)) && NothingBetween(Singles(ids), s, DeletionRun(id, 1));
      var y :| y in pieces && InDeletion(y, s.first);
      PredecessorEnds(pieces, ids, x, y, s.first);
      assert IdLess(y.first, x.first) && !NothingBetween(pieces, y, x);
      var q :| q in pieces && IdLess(y.first, q.first) && IdLess(q.first, x.first);
      assert InDeletion(q, q.first) && DeletionRun(q.first, 1) in Singles(ids);
      id := BreakInside(pieces, ids, y, q, s.first);
    }
  }

  lemma {:induction false} PredecessorEnds(pieces: set<DeletionRun>, ids: set<Identity>, x: DeletionRun, y: DeletionRun, p: Identity)
    requires Cuts(pieces, ids) && x in pieces && y in pieces && InDeletion(y, p) && x.first == Identity(p.actor, p.counter + 1)
    ensures Continues(y, x)
  {
    assert InDeletion(x, x.first);
    if y.first.counter + y.count > p.counter + 1 { assert InDeletion(y, x.first); }
  }

  /** Where `q` falls into `y`, the one-by-one list breaks. */
  lemma {:induction false} BreakInside(pieces: set<DeletionRun>, ids: set<Identity>, y: DeletionRun, q: DeletionRun, p: Identity) returns (id: Identity)
    requires Cuts(pieces, ids) && y in pieces && q in pieces && InDeletion(y, p)
    requires IdLess(y.first, q.first) && !IdLess(p, q.first)
    ensures InDeletion(y, id) && id != y.first && DeletionRun(id, 1) in Heads(Singles(ids))
  {
    assert InDeletion(q, q.first);
    assert InDeletion(y, y.first);
    if q.first.actor == y.first.actor { assert InDeletion(y, q.first); }
    id := Identity(y.first.actor, if q.first.actor < y.first.actor then q.first.counter else q.first.counter + 1);
    assert InDeletion(y, id) && id in ids;
    assert DeletionRun(q.first, 1) in Singles(ids);
  }

  lemma {:induction false} StandsApart(pieces: set<DeletionRun>, ids: set<Identity>, x: DeletionRun, y: DeletionRun, id: Identity)
    requires Cuts(pieces, ids) && x in pieces && y in pieces && StandsFor(pieces, x, id) && StandsFor(pieces, y, id)
    ensures x == y
  {
    assert InDeletion(x, x.first) && InDeletion(y, y.first);
    if id != x.first && id != y.first {
      var a :| a in pieces && Continues(a, x) && InDeletion(a, id) && id != a.first;
      var b :| b in pieces && Continues(b, y) && InDeletion(b, id) && id != b.first;
      assert x.first == y.first;
    }
  }

  lemma {:induction false} HeadsStand(pieces: set<DeletionRun>, ids: set<Identity>, some: set<DeletionRun>) returns (stand: set<DeletionRun>)
    requires Cuts(pieces, ids) && some <= Heads(pieces)
    ensures stand <= Heads(Singles(ids)) && |stand| == |some|
    ensures forall t :: t in stand ==> exists x :: x in some && StandsFor(pieces, x, t.first)
  {
    hide *;
    stand := {};
    if some != {} {
      var x :| x in some;
      var rest := HeadsStand(pieces, ids, some - {x});
      var id := HeadStands(pieces, ids, x);
      NotTwice(pieces, ids, some, x, rest, id);
      stand := rest + {DeletionRun(id, 1)};
      assert some == (some - {x}) + {x};
      assert StandsFor(pieces, x, DeletionRun(id, 1).first);
    }
  }

  lemma {:induction false} NotTwice(pieces: set<DeletionRun>, ids: set<Identity>, some: set<DeletionRun>, x: DeletionRun,
                                    rest: set<DeletionRun>, id: Identity)
    requires Cuts(pieces, ids) && some <= Heads(pieces) && x in some && StandsFor(pieces, x, id)
    requires forall t :: t in rest ==> exists y :: y in some - {x} && StandsFor(pieces, y, t.first)
    ensures DeletionRun(id, 1) !in rest
  {
    if DeletionRun(id, 1) in rest {
      var y :| y in some - {x} && StandsFor(pieces, y, DeletionRun(id, 1).first);
      StandsApart(pieces, ids, x, y, id);
    }
  }

  /** Packing pieces gives at most as many runs as packing their identities one by
      one. */
  lemma {:induction false} PiecesPackTighter(pieces: set<DeletionRun>, ids: set<Identity>)
    requires Cuts(pieces, ids)
    ensures |Heads(pieces)| <= |Heads(Singles(ids))|
  {
    var stand := HeadsStand(pieces, ids, Heads(pieces));
    hide *;
    var all := Heads(Singles(ids));
    assert all == stand + (all - stand);
  }
}
