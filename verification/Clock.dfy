/** `Global`: the version vector as a sorted array of pairs, grown by doubling,
    searched by bisection, updated by a shifting insert and intersected by a
    merge walk. The abstract value is the `Version` its pairs spell out. */
module Clock {
  import opened Ids
  import opened VersionVectors

  datatype Pair = Pair(actor: ActorId, counter: nat)

  /** Strictly sorted by actor, no zero counters. */
  ghost predicate Canonical(s: seq<Pair>) {
    && (forall i, j :: 0 <= i < j < |s| ==> s[i].actor < s[j].actor)
    && (forall i :: 0 <= i < |s| ==> s[i].counter > 0)
  }

  ghost predicate Lists(s: seq<Pair>, a: ActorId) {
    exists i :: 0 <= i < |s| && s[i].actor == a
  }

  /** The counter listed for `a`, or zero. */
  ghost function Lookup(s: seq<Pair>, a: ActorId): (c: nat)
    ensures Lists(s, a) ==> exists i :: 0 <= i < |s| && s[i] == Pair(a, c)
    ensures !Lists(s, a) ==> c == 0
  {
    if Lists(s, a) then
      var i :| 0 <= i < |s| && s[i].actor == a;
      s[i].counter
    else 0
  }

  lemma LookupAt(s: seq<Pair>, i: nat)
    requires Canonical(s) && i < |s|
    ensures Lists(s, s[i].actor) && Lookup(s, s[i].actor) == s[i].counter
  {
  }

  /** The vector a canonical array stands for. */
  ghost function ViewOf(s: seq<Pair>): (v: Version)
    requires Canonical(s)
    ensures forall a :: Get(v, a) == Lookup(s, a)
  {
    var actors := set i | 0 <= i < |s| :: s[i].actor;
    assert forall a :: a in actors <==> Lists(s, a);
    map a | a in actors :: Lookup(s, a)
  }

  /** A canonical array is determined by the vector it stands for, so comparing
      arrays is comparing vectors. */
  lemma {:induction false} CanonicalIsUnique(s: seq<Pair>, t: seq<Pair>)
    requires Canonical(s) && Canonical(t)
    requires forall a :: Lookup(s, a) == Lookup(t, a)
    ensures s == t
    decreases |s|
  {
    if s == [] {
      if t != [] { LookupAt(t, 0); }
    } else {
      var m := |s| - 1;
      LookupAt(s, m);
      assert Lists(t, s[m].actor);
      var n := |t| - 1;
      LookupAt(t, n);
      assert Lists(s, t[n].actor);
      assert s[m] == t[n] by {
        assert s[m].actor <= t[n].actor && t[n].actor <= s[m].actor;
      }
      forall a
        ensures Lookup(s[..m], a) == Lookup(t[..n], a)
      {
        DropLast(s, a);
        DropLast(t, a);
      }
      CanonicalIsUnique(s[..m], t[..n]);
      assert s == s[..m] + [s[m]] && t == t[..n] + [t[n]];
    }
  }

  lemma DropLast(s: seq<Pair>, a: ActorId)
    requires Canonical(s) && s != []
    ensures Lookup(s[..|s| - 1], a) == if a == s[|s| - 1].actor then 0 else Lookup(s, a)
  {
    var t := s[..|s| - 1];
    if Lists(t, a) {
      var i :| 0 <= i < |t| && t[i].actor == a;
      LookupAt(t, i);
      LookupAt(s, i);
    }
    assert forall i :: 0 <= i < |t| ==> t[i] == s[i];
  }

  const INLINE_CAPACITY := 2

  class Global {
    var data: array<Pair>
    var size: nat

    ghost predicate Valid()
      reads this, data
    {
      size <= data.Length && Canonical(data[..size])
    }

    ghost function View(): Version
      requires Valid()
      reads this, data
    {
      ViewOf(data[..size])
    }

    constructor ()
      ensures Valid() && View() == map[] && size == 0 && fresh(data)
    {
      data := new Pair[INLINE_CAPACITY](_ => Pair(0, 0));
      size := 0;
      new;
      assert data[..size] == [];
    }

    /** Room for `need` pairs, doubling from the current capacity. */
    method EnsureCapacity(need: nat)
      requires Valid()
      modifies this`data
      ensures Valid() && size == old(size) && data.Length >= need
      ensures data[..size] == old(data[..size])
      ensures data == old(data) || fresh(data)
    {
      if need <= data.Length { return; }
      var capacity := if data.Length == 0 then INLINE_CAPACITY else data.Length;
      while capacity < need
        invariant capacity >= 1 && capacity >= data.Length
        decreases need - capacity
      {
        capacity := capacity * 2;
      }
      var old_, n := data, size;
      var grown := new Pair[capacity](_ => Pair(0, 0));
      for i := 0 to n
        invariant forall j :: 0 <= j < i ==> grown[j] == old_[j]
      {
        grown[i] := old_[i];
      }
      assert grown[..n] == old_[..n];
      data := grown;
    }

    /** Bisection: the index of `actor`, or where it would go. */
    method FindIndex(actor: ActorId) returns (idx: nat, found: bool)
      requires Valid()
      ensures idx <= size
      ensures forall i :: 0 <= i < idx ==> data[i].actor < actor
      ensures forall i :: idx <= i < size ==> actor <= data[i].actor
      ensures found <==> idx < size && data[idx].actor == actor
      ensures found <==> Lists(data[..size], actor)
    {
      var lo, hi := 0, size;
      while lo < hi
        invariant 0 <= lo <= hi <= size
        invariant forall i :: 0 <= i < lo ==> data[i].actor < actor
        invariant forall i :: hi <= i < size ==> actor <= data[i].actor
      {
        var mid := lo + (hi - lo) / 2;
        assert data[..size][mid] == data[mid];
        if data[mid].actor < actor {
          forall i | 0 <= i <= mid ensures data[i].actor < actor {
            assert data[..size][i] == data[i];
          }
          lo := mid + 1;
        } else {
          forall i | mid <= i < size ensures actor <= data[i].actor {
            assert data[..size][i] == data[i];
          }
          hi := mid;
        }
      }
      found := lo < size && data[lo].actor == actor;
      idx := lo;
      if found { assert data[..size][lo].actor == actor; }
    }

    method GetCounter(actor: ActorId) returns (c: nat)
      requires Valid()
      ensures c == Get(View(), actor)
    {
      var idx, found := FindIndex(actor);
      if found {
        assert data[..size][idx] == data[idx];
        LookupAt(data[..size], idx);
        return data[idx].counter;
      }
      return 0;
    }

    /** Record `id` as seen; counter 0 is discarded. */
    method ObserveId(id: Identity)
      requires Valid()
      modifies this, data
      ensures Valid() && View() == Observe(old(View()), id)
      ensures data == old(data) || fresh(data)
    {
      if id.counter == 0 { return; }
      ghost var was := data[..size];
      var idx, found := FindIndex(id.actor);
      if found {
        assert was[idx] == data[idx];
        LookupAt(was, idx);
        if data[idx].counter < id.counter {
          RaisePair(idx, id);
        }
        return;
      }
      InsertPair(idx, id);
    }

    method RaisePair(idx: nat, id: Identity)
      requires Valid() && idx < size && data[idx].actor == id.actor && data[idx].counter < id.counter
      modifies data
      ensures Valid() && View() == Observe(old(View()), id)
    {
      ghost var was := data[..size];
      RaiseKeeps(was, idx, id);
      data[idx] := Pair(id.actor, id.counter);
      assert data[..size] == was[idx := Pair(id.actor, id.counter)];
    }

    /** Insert a new pair at its place, shifting later ones right. */
    method InsertPair(idx: nat, id: Identity)
      requires Valid() && idx <= size && id.counter > 0
      requires forall i :: 0 <= i < idx ==> data[i].actor < id.actor
      requires forall i :: idx <= i < size ==> id.actor < data[i].actor
      modifies this, data
      ensures Valid() && View() == Observe(old(View()), id)
      ensures data == old(data) || fresh(data)
    {
      ghost var was := data[..size];
      InsertKeeps(was, idx, id);
      EnsureCapacity(size + 1);
      PlaceAt(idx, Pair(id.actor, id.counter));
      assert data[..size] == WithPair(was, idx, Pair(id.actor, id.counter));
    }

    /** Move everything from `idx` on one place to the right and fill the gap. */
    method PlaceAt(idx: nat, p: Pair)
      requires idx <= size < data.Length
      modifies this`size, data
      ensures size == old(size) + 1
      ensures data[..size] == WithPair(old(data[..size]), idx, p)
    {
      ghost var was := data[..size];
      var i := size;
      while i > idx
        invariant idx <= i <= size == old(size) < data.Length
        invariant forall k :: 0 <= k < i ==> data[k] == was[k]
        invariant forall k :: i < k <= size ==> data[k] == was[k - 1]
      {
        data[i] := data[i - 1];
        i := i - 1;
      }
      data[idx] := p;
      size := size + 1;
    }

    method IsObserved(id: Identity) returns (b: bool)
      requires Valid()
      ensures b <==> Observed(View(), id)
    {
      var c := GetCounter(id.actor);
      b := c >= id.counter;
    }

    method ObservedAll(other: Global) returns (b: bool)
      requires Valid() && other.Valid()
      ensures b <==> Covers(View(), other.View())
    {
      ghost var theirs := other.data[..other.size];
      for i := 0 to other.size
        invariant forall j :: 0 <= j < i ==> Get(View(), theirs[j].actor) >= theirs[j].counter
      {
        var c := GetCounter(other.data[i].actor);
        LookupAt(theirs, i);
        if c < other.data[i].counter {
          assert Get(other.View(), theirs[i].actor) > Get(View(), theirs[i].actor);
          return false;
        }
      }
      forall a | a in other.View()
        ensures Get(View(), a) >= other.View()[a]
      {
        assert Get(other.View(), a) > 0;
        var i :| 0 <= i < |theirs| && theirs[i] == Pair(a, Lookup(theirs, a));
      }
      return true;
    }

    /** Pointwise maximum, one observation per pair of `other`, which may be this
        very vector. */
    method JoinWith(other: Global)
      requires Valid() && other.Valid() && (this != other ==> data != other.data)
      modifies this, data
      ensures Valid() && View() == Join(old(View()), old(other.View()))
      ensures data == old(data) || fresh(data)
    {
      ghost var theirs, was := other.data[..other.size], View();
      JoiningStarts(other);
      var i := 0;
      hide Joining, JoinedUpTo, Lookup, Lists, Observe, Join, ViewOf, Canonical, Get;
      while i < other.size
        invariant Joining(other, was, theirs, i) && (data == old(data) || fresh(data))
        decreases |theirs| - i
      {
        JoinPair(other, i, was, theirs);
        i := i + 1;
      }
      JoiningEnds(other, was, theirs, i);
    }

    /** The first `i` of the other's pairs are observed; its pairs stay as they are. */
    ghost predicate Joining(other: Global, was: Version, theirs: seq<Pair>, i: nat)
      reads this, data, other, other.data
    {
      && Valid() && other.Valid() && other.data[..other.size] == theirs
      && (this != other ==> data != other.data)
      && i <= |theirs| && JoinedUpTo(was, View(), theirs, i)
    }

    lemma JoiningStarts(other: Global)
      requires Valid() && other.Valid() && (this != other ==> data != other.data)
      ensures Joining(other, View(), other.data[..other.size], 0)
    {
      NoneJoined(View(), other.data[..other.size]);
    }

    lemma JoiningEnds(other: Global, was: Version, theirs: seq<Pair>, i: nat)
      requires Joining(other, was, theirs, i) && i >= other.size
      ensures Valid() && View() == Join(was, ViewOf(theirs))
    {
      hide JoinedUpTo, Lookup, Lists, Get, Canonical, Join;
      AllJoined(was, View(), theirs);
    }

    /** Observe one pair of `other`. */
    method JoinPair(other: Global, i: nat, ghost was: Version, ghost theirs: seq<Pair>)
      requires Joining(other, was, theirs, i) && i < other.size
      modifies this, data
      ensures Joining(other, was, theirs, i + 1) && (data == old(data) || fresh(data))
    {
      var pair := other.data[i];
      assert pair == theirs[i];
      ghost var mine := data[..size];
      hide JoinedUpTo, Lookup, Observe, ViewOf, Canonical;
      ObserveId(Identity(pair.actor, pair.counter));
      JoinStep(was, ViewOf(mine), View(), theirs, i);
      if this == other { OwnPair(theirs, data[..size], i); }
    }

    /** Same pairs, same order: the same vector. */
    method Equals(other: Global) returns (b: bool)
      requires Valid() && other.Valid()
      ensures b <==> View() == other.View()
    {
      ViewsAgree(data[..size], other.data[..other.size]);
      if size != other.size { return false; }
      for i := 0 to size
        invariant forall j :: 0 <= j < i ==> data[j] == other.data[j]
      {
        if data[i] != other.data[i] {
          assert data[..size][i] != other.data[..other.size][i];
          return false;
        }
      }
      assert data[..size] == other.data[..other.size];
      return true;
    }

    /** Walk both sorted arrays once, keep the minimum, drop zeros. */
    method CoverageIntersection(other: Global) returns (r: Global)
      requires Valid() && other.Valid()
      ensures fresh(r) && fresh(r.data) && r.Valid()
      ensures r.View() == Meet(View(), other.View())
    {
      hide Merged;
      r := new Global();
      r.EnsureCapacity(size + other.size);
      ghost var a, b, out := data[..size], other.data[..other.size], r.data[..r.size];
      MergeStart(a, b);
      var i, j := 0, 0;
      while i < size || j < other.size
        invariant i <= size && j <= other.size && fresh(r) && fresh(r.data)
        invariant r.size <= i + j && size + other.size <= r.data.Length
        invariant r.data[..r.size] == out && Merged(a, b, i, j, out)
        decreases size - i + other.size - j
      {
        var who: ActorId;
        var left, right := 0, 0;
        ghost var i0, j0 := i, j;
        if j >= other.size || (i < size && data[i].actor < other.data[j].actor) {
          who, left := data[i].actor, data[i].counter;
          i := i + 1;
        } else if i >= size || other.data[j].actor < data[i].actor {
          who, right := other.data[j].actor, other.data[j].counter;
          j := j + 1;
        } else {
          who, left, right := data[i].actor, data[i].counter, other.data[j].counter;
          i, j := i + 1, j + 1;
        }
        var value := if left < right then left else right;
        assert MergeMoves(a, b, i0, j0, i, j, who, value);
        MergeStep(a, b, i0, j0, i, j, out, who, value);
        if value > 0 {
          r.Append(Pair(who, value));
          out := out + [Pair(who, value)];
        }
      }
      MergeDone(a, b, out);
      Extensional(r.View(), Meet(View(), other.View()));
    }

    method Append(p: Pair)
      requires size < data.Length
      modifies this`size, data
      ensures size == old(size) + 1 && data[..size] == old(data[..size]) + [p]
    {
      data[size] := p;
      size := size + 1;
    }
  }

  lemma ViewsAgree(s: seq<Pair>, t: seq<Pair>)
    requires Canonical(s) && Canonical(t)
    ensures ViewOf(s) == ViewOf(t) <==> s == t
  {
    if ViewOf(s) == ViewOf(t) {
      forall a ensures Lookup(s, a) == Lookup(t, a) {
        assert Get(ViewOf(s), a) == Get(ViewOf(t), a);
      }
      CanonicalIsUnique(s, t);
    }
  }

  ghost predicate JoinedUpTo(was: Version, now: Version, theirs: seq<Pair>, i: nat)
    requires i <= |theirs|
  {
    forall a :: Get(now, a) == Max(Get(was, a), Lookup(theirs[..i], a))
  }

  lemma {:induction false} NoneJoined(was: Version, theirs: seq<Pair>)
    ensures JoinedUpTo(was, was, theirs, 0)
  {
  }

  lemma {:induction false} AllJoined(was: Version, now: Version, theirs: seq<Pair>)
    requires Canonical(theirs) && JoinedUpTo(was, now, theirs, |theirs|)
    ensures now == Join(was, ViewOf(theirs))
  {
    assert theirs[..|theirs|] == theirs;
    Extensional(now, Join(was, ViewOf(theirs)));
  }

  /** Observing a pair of one's own changes nothing. */
  lemma {:induction false} OwnPair(s: seq<Pair>, t: seq<Pair>, i: nat)
    requires Canonical(s) && Canonical(t) && i < |s|
    requires ViewOf(t) == Observe(ViewOf(s), Identity(s[i].actor, s[i].counter))
    ensures t == s
  {
    LookupAt(s, i);
    ViewsAgree(s, t);
  }

  lemma JoinStep(was: Version, before: Version, now: Version, theirs: seq<Pair>, i: nat)
    requires Canonical(theirs) && i < |theirs| && JoinedUpTo(was, before, theirs, i)
    requires now == Observe(before, Identity(theirs[i].actor, theirs[i].counter))
    ensures JoinedUpTo(was, now, theirs, i + 1)
  {
    forall a
      ensures Get(now, a) == Max(Get(was, a), Lookup(theirs[..i + 1], a))
    {
      TakeOne(theirs, i, a);
      assert Get(before, a) == Max(Get(was, a), Lookup(theirs[..i], a));
    }
  }

  lemma RaiseKeeps(s: seq<Pair>, k: nat, id: Identity)
    requires Canonical(s) && k < |s| && s[k].actor == id.actor && s[k].counter < id.counter
    ensures Canonical(s[k := Pair(id.actor, id.counter)])
    ensures ViewOf(s[k := Pair(id.actor, id.counter)]) == Observe(ViewOf(s), id)
  {
    var t := s[k := Pair(id.actor, id.counter)];
    assert forall i :: 0 <= i < |s| ==> t[i].actor == s[i].actor;
    assert Canonical(t);
    forall a
      ensures Lookup(t, a) == Get(Observe(ViewOf(s), id), a)
    {
      LookupAt(s, k);
      LookupAt(t, k);
      if Lists(s, a) {
        var i :| 0 <= i < |s| && s[i] == Pair(a, Lookup(s, a));
        LookupAt(t, i);
      }
    }
    Extensional(ViewOf(t), Observe(ViewOf(s), id));
  }

  function WithPair(s: seq<Pair>, k: nat, p: Pair): seq<Pair>
    requires k <= |s|
  {
    s[..k] + [p] + s[k..]
  }

  lemma InsertCanonical(s: seq<Pair>, k: nat, p: Pair)
    requires Canonical(s) && k <= |s| && p.counter > 0
    requires forall i :: 0 <= i < k ==> s[i].actor < p.actor
    requires forall i :: k <= i < |s| ==> p.actor < s[i].actor
    ensures Canonical(WithPair(s, k, p))
  {
    var t := WithPair(s, k, p);
    assert forall i :: 0 <= i < |t| ==> t[i] == if i < k then s[i] else if i == k then p else s[i - 1];
  }

  lemma InsertLookup(s: seq<Pair>, k: nat, p: Pair, a: ActorId)
    requires Canonical(s) && k <= |s| && Canonical(WithPair(s, k, p)) && !Lists(s, p.actor)
    ensures Lookup(WithPair(s, k, p), a) == if a == p.actor then p.counter else Lookup(s, a)
  {
    var t := WithPair(s, k, p);
    assert forall i :: 0 <= i < |t| ==> t[i] == if i < k then s[i] else if i == k then p else s[i - 1];
    LookupAt(t, k);
    if Lists(s, a) {
      var i :| 0 <= i < |s| && s[i] == Pair(a, Lookup(s, a));
      assert t[if i < k then i else i + 1] == s[i];
      LookupAt(t, if i < k then i else i + 1);
    }
  }

  lemma InsertKeeps(s: seq<Pair>, k: nat, id: Identity)
    requires Canonical(s) && k <= |s| && id.counter > 0
    requires forall i :: 0 <= i < k ==> s[i].actor < id.actor
    requires forall i :: k <= i < |s| ==> id.actor < s[i].actor
    ensures Canonical(WithPair(s, k, Pair(id.actor, id.counter)))
    ensures ViewOf(WithPair(s, k, Pair(id.actor, id.counter))) == Observe(ViewOf(s), id)
  {
    var p := Pair(id.actor, id.counter);
    InsertCanonical(s, k, p);
    forall a
      ensures Get(ViewOf(WithPair(s, k, p)), a) == Get(Observe(ViewOf(s), id), a)
    {
      InsertLookup(s, k, p, a);
    }
    Extensional(ViewOf(WithPair(s, k, p)), Observe(ViewOf(s), id));
  }

  /** What the merge walk has done after `i` and `j` pairs. */
  ghost predicate Merged(a: seq<Pair>, b: seq<Pair>, i: nat, j: nat, out: seq<Pair>)
    requires i <= |a| && j <= |b|
  {
    && Canonical(out)
    && (forall k :: 0 <= k < |out| ==>
          && (i < |a| ==> out[k].actor < a[i].actor) && (j < |b| ==> out[k].actor < b[j].actor))
    && (forall k :: 0 <= k < i && j < |b| ==> a[k].actor < b[j].actor)
    && (forall k :: 0 <= k < j && i < |a| ==> b[k].actor < a[i].actor)
    && (forall x :: Lookup(out, x) == Min(Lookup(a[..i], x), Lookup(b[..j], x)))
  }

  lemma TakeOne(s: seq<Pair>, i: nat, x: ActorId)
    requires Canonical(s) && i < |s|
    ensures Lookup(s[..i + 1], x) == if x == s[i].actor then s[i].counter else Lookup(s[..i], x)
    ensures Lookup(s[..i], s[i].actor) == 0
  {
    var t := s[..i + 1];
    assert t[..i] == s[..i];
    DropLast(t, x);
    DropLast(t, s[i].actor);
    LookupAt(t, i);
  }

  lemma NotYet(s: seq<Pair>, i: nat, x: ActorId)
    requires Canonical(s) && i <= |s|
    requires forall k :: 0 <= k < i ==> s[k].actor < x
    ensures Lookup(s[..i], x) == 0
  {
  }

  lemma MergeStep(a: seq<Pair>, b: seq<Pair>, i0: nat, j0: nat, i: nat, j: nat, out: seq<Pair>, who: ActorId, value: nat)
    requires Canonical(a) && Canonical(b) && i0 <= i <= |a| && j0 <= j <= |b|
    requires i0 < |a| || j0 < |b|
    requires Merged(a, b, i0, j0, out)
    requires MergeMoves(a, b, i0, j0, i, j, who, value)
    ensures Merged(a, b, i, j, if value > 0 then out + [Pair(who, value)] else out)
  {
    forall x
      ensures Lookup(if value > 0 then out + [Pair(who, value)] else out, x) == Min(Lookup(a[..i], x), Lookup(b[..j], x))
    {
      MergeLookup(a, b, i0, j0, i, j, out, who, value, x);
    }
  }

  lemma MergeLookup(a: seq<Pair>, b: seq<Pair>, i0: nat, j0: nat, i: nat, j: nat, out: seq<Pair>, who: ActorId, value: nat, x: ActorId)
    requires Canonical(a) && Canonical(b) && i0 <= i <= |a| && j0 <= j <= |b|
    requires i0 < |a| || j0 < |b|
    requires Merged(a, b, i0, j0, out)
    requires MergeMoves(a, b, i0, j0, i, j, who, value)
    ensures Lookup(if value > 0 then out + [Pair(who, value)] else out, x) == Min(Lookup(a[..i], x), Lookup(b[..j], x))
  {
    if i > i0 { TakeOne(a, i0, x); }
    if j > j0 { TakeOne(b, j0, x); }
    if i == i0 + 1 && j == j0 { NotYet(b, j0, a[i0].actor); }
    if j == j0 + 1 && i == i0 { NotYet(a, i0, b[j0].actor); }
    assert Lookup(out, x) == Min(Lookup(a[..i0], x), Lookup(b[..j0], x));
    if value > 0 {
      AddOne(out, Pair(who, value), x);
    }
  }

  lemma AddOne(out: seq<Pair>, p: Pair, x: ActorId)
    requires Canonical(out) && p.counter > 0 && forall k :: 0 <= k < |out| ==> out[k].actor < p.actor
    ensures Canonical(out + [p])
    ensures Lookup(out + [p], x) == if x == p.actor then p.counter else Lookup(out, x)
  {
    var more := out + [p];
    assert more[..|out|] == out;
    DropLast(more, x);
    LookupAt(more, |out|);
  }

  /** One step of the walk: which pairs it consumes and what it would emit. */
  ghost predicate MergeMoves(a: seq<Pair>, b: seq<Pair>, i0: nat, j0: nat, i: nat, j: nat, who: ActorId, value: nat)
    requires i0 <= |a| && j0 <= |b| && (i0 < |a| || j0 < |b|)
  {
    if j0 >= |b| || (i0 < |a| && a[i0].actor < b[j0].actor) then
      i == i0 + 1 && j == j0 && who == a[i0].actor && value == 0
    else if i0 >= |a| || b[j0].actor < a[i0].actor then
      i == i0 && j == j0 + 1 && who == b[j0].actor && value == 0
    else i == i0 + 1 && j == j0 + 1 && who == a[i0].actor && value == Min(a[i0].counter, b[j0].counter)
  }

  lemma MergeStart(a: seq<Pair>, b: seq<Pair>)
    ensures Merged(a, b, 0, 0, [])
  {
  }

  lemma MergeDone(a: seq<Pair>, b: seq<Pair>, out: seq<Pair>)
    requires Merged(a, b, |a|, |b|, out)
    ensures Canonical(out)
    ensures forall x :: Lookup(out, x) == Min(Lookup(a, x), Lookup(b, x))
  {
    assert a[..|a|] == a && b[..|b|] == b;
  }
}
