/** Decoding an encoded operation gives the operation back. */
module OperationLaws {
  import opened Ids
  import opened Bytes
  import opened Clock
  import opened VersionVectors
  import opened FugueOrder
  import opened WireOperations
  import opened Utf
  import opened Json
  import opened JsonLaws
  import opened OperationFrames

  // ---- Every tree reads back ----

  lemma {:induction false} NumberReads(value: nat)
    requires value < U64
    ensures NumberOfTree(NumberTree(value)) == Some(value)
    ensures value < U32 ==> NarrowOfTree(NumberTree(value)) == Some(value)
  {
    hide Hex, ReadHex, Power16;
    Widths16();
    HexReads(value, 16);
  }

  lemma {:induction false} ActorReads(actor: ActorId)
    requires ValidActor(actor)
    ensures ActorOfText(Hex(actor, 32)) == Some(actor)
  {
    hide Hex, ReadHex, Power16;
    Widths16();
    HexReads(actor, 32);
  }

  lemma {:induction false} IdentityReads(id: Identity)
    requires Issuable(id)
    ensures IdentityOfTree(IdentityTree(id)) == Some(id)
    ensures OptionalOfTree(IdentityTree(id)) == Some(Some(id))
  {
    hide Hex, ActorOfText, NumberOfTree;
    ActorReads(id.actor);
    NumberReads(id.counter);
    assert |IdentityTree(id).elements| == 2;
    assert IdentityTree(id) != Array([]);
  }

  lemma {:induction false} OptionalReads(id: Option<Identity>)
    requires id.Some? ==> Issuable(id.value)
    ensures OptionalOfTree(OptionalTree(id)) == Some(id)
  {
    hide IdentityTree, IdentityOfTree;
    if id.Some? {
      IdentityReads(id.value);
    }
  }

  /** The fields of an object with a few different keys are found. */
  lemma {:induction false} FindHead(m: Member, ms: seq<Member>, key: seq<Byte>)
    ensures Find([m] + ms, key) == if m.key == key then Some(m.value) else Find(ms, key)
  {
    assert ([m] + ms)[1..] == ms;
  }

  lemma {:induction false} Find3(a: Member, b: Member, c: Member, key: seq<Byte>)
    ensures Find([a, b, c], key)
         == if a.key == key then Some(a.value) else if b.key == key then Some(b.value)
            else if c.key == key then Some(c.value) else None
  {
    assert [a, b, c] == [a] + ([b] + ([c] + []));
    FindHead(a, [b] + ([c] + []), key);
    FindHead(b, [c] + [], key);
    FindHead(c, [], key);
  }

  lemma {:induction false} FindConcat(a: seq<Member>, b: seq<Member>, key: seq<Byte>)
    ensures Find(a + b, key) == if Find(a, key).Some? then Find(a, key) else Find(b, key)
  {
    if a == [] {
      assert a + b == b;
    } else {
      assert (a + b)[1..] == a[1..] + b;
      FindConcat(a[1..], b, key);
    }
  }

  lemma {:induction false} LinkReads(link: Link)
    requires LinkIssuable(link)
    ensures LinkOfTree(LinkTree(link)) == Some(link)
  {
    hide Find, OptionalTree, OptionalOfTree, NumberTree, NumberOfTree;
    var v := LinkTree(link);
    var p, s, r := v.members[0], v.members[1], v.members[2];
    forall key ensures Find(v.members, key)
      == if key == KEY_P then Some(p.value) else if key == KEY_S then Some(s.value)
         else if key == KEY_R then Some(r.value) else None
    {
      Find3(p, s, r, key);
    }
    OptionalReads(link.parent);
    OptionalReads(link.rightOrigin);
    NumberReads(if link.side.Left? then 0 else 1);
  }

  /** Recording an actor above all others appends. */
  lemma {:induction false} RecordAppends(ps: seq<Pair>)
    requires Canonical(ps) && ps != []
    ensures Record(ps[..|ps| - 1], ps[|ps| - 1]) == ps
  {
    assert ps == ps[..|ps| - 1] + [ps[|ps| - 1]];
  }

  lemma {:induction false} FrontierReads(ps: seq<Pair>)
    requires Canonical(ps) && (forall i :: 0 <= i < |ps| ==> Issuable(Identity(ps[i].actor, ps[i].counter)))
    ensures FrontierOf(FrontierMembers(ps)) == Some(ps)
  {
    hide Hex, NumberTree, NumberOfTree, ActorOfText, Record, Issuable;
    if ps != [] {
      var n := |ps| - 1;
      var ms := FrontierMembers(ps);
      assert ms[..n] == FrontierMembers(ps[..n]) && ms[n] == FrontierMember(ps[n]);
      FrontierReads(ps[..n]);
      IssuableParts(Identity(ps[n].actor, ps[n].counter));
      ActorReads(ps[n].actor);
      NumberReads(ps[n].counter);
      RecordAppends(ps);
    }
  }

  lemma {:induction false} IssuableParts(id: Identity)
    requires Issuable(id)
    ensures ValidActor(id.actor) && 0 < id.counter < U64
  {
  }

  /** The array after observing one more pair. */
  ghost predicate IsRecord(out: seq<Pair>, ps: seq<Pair>, p: Pair) {
    && Canonical(out)
    && (forall a :: Lookup(out, a) == if a == p.actor && Lookup(ps, a) < p.counter then p.counter else Lookup(ps, a))
    && (forall i :: 0 <= i < |out| ==> out[i].actor == p.actor || Lists(ps, out[i].actor))
  }

  /** Recording keeps the array canonical and observes the pair. */
  lemma {:induction false} RecordObserves(ps: seq<Pair>, p: Pair)
    requires Canonical(ps) && p.counter > 0
    ensures IsRecord(Record(ps, p), ps, p)
  {
    hide IsRecord, Lookup, Lists;
    if ps == [] || ps[|ps| - 1].actor < p.actor {
      RecordAbove(ps, p);
      assert ps + [p] == Record(ps, p) by {
        if ps == [] {
          assert ps + [p] == [p];
        }
      }
    } else {
      var n := |ps| - 1;
      if ps[n].actor == p.actor {
        RecordSame(ps, p);
      } else {
        RecordObserves(ps[..n], p);
        RecordBelow(ps, p, Record(ps[..n], p));
      }
    }
  }

  lemma {:induction false} LookupNone(ps: seq<Pair>, a: ActorId)
    requires !Lists(ps, a)
    ensures Lookup(ps, a) == 0
  {
  }

  lemma {:induction false} RecordAbove(ps: seq<Pair>, p: Pair)
    requires Canonical(ps) && p.counter > 0 && (ps == [] || ps[|ps| - 1].actor < p.actor)
    ensures IsRecord(ps + [p], ps, p)
  {
    hide Lookup;
    assert WithPair(ps, |ps|, p) == ps + [p];
    assert forall i :: 0 <= i < |ps| ==> ps[i].actor < p.actor;
    InsertCanonical(ps, |ps|, p);
    assert !Lists(ps, p.actor);
    LookupNone(ps, p.actor);
    var out := ps + [p];
    forall a ensures Lookup(out, a) == if a == p.actor && Lookup(ps, a) < p.counter then p.counter else Lookup(ps, a) {
      InsertLookup(ps, |ps|, p, a);
    }
    forall i | 0 <= i < |out| ensures out[i].actor == p.actor || Lists(ps, out[i].actor) {
      assert i < |ps| ==> ps[i].actor == out[i].actor;
    }
  }

  lemma {:induction false} RaisedLookup(ps: seq<Pair>, n: nat, p: Pair, a: ActorId)
    requires Canonical(ps) && n < |ps| && ps[n].actor == p.actor && ps[n].counter < p.counter
    ensures Canonical(ps[n := p])
    ensures Lookup(ps[n := p], a) == if a == p.actor then p.counter else Lookup(ps, a)
  {
    hide Lookup, ViewOf, Observe;
    var id := Identity(p.actor, p.counter);
    assert Pair(id.actor, id.counter) == p;
    RaiseKeeps(ps, n, id);
    LookupAt(ps, n);
    assert Get(ViewOf(ps[n := p]), a) == Get(Observe(ViewOf(ps), id), a);
    assert Get(ViewOf(ps), a) == Lookup(ps, a);
  }

  lemma {:induction false} RecordSame(ps: seq<Pair>, p: Pair)
    requires Canonical(ps) && ps != [] && ps[|ps| - 1].actor == p.actor
    ensures IsRecord(if ps[|ps| - 1].counter < p.counter then ps[|ps| - 1 := p] else ps, ps, p)
  {
    hide Lookup;
    var n := |ps| - 1;
    LookupAt(ps, n);
    var out := if ps[n].counter < p.counter then ps[n := p] else ps;
    if ps[n].counter < p.counter {
      forall a ensures Canonical(out) && Lookup(out, a) == if a == p.actor then p.counter else Lookup(ps, a) {
        RaisedLookup(ps, n, p, a);
      }
    }
    forall i | 0 <= i < |out| ensures Lists(ps, out[i].actor) {
      assert ps[i].actor == out[i].actor;
    }
  }

  lemma {:induction false} RecordBelow(ps: seq<Pair>, p: Pair, before: seq<Pair>)
    requires Canonical(ps) && ps != [] && p.actor < ps[|ps| - 1].actor
    requires IsRecord(before, ps[..|ps| - 1], p)
    ensures IsRecord(before + [ps[|ps| - 1]], ps, p)
  {
    hide Lookup;
    var n := |ps| - 1;
    var last, out := ps[n], before + [ps[n]];
    forall i | 0 <= i < |before| ensures before[i].actor < last.actor {
      if before[i].actor != p.actor {
        var j :| 0 <= j < n && ps[..n][j].actor == before[i].actor;
        assert ps[j].actor < ps[n].actor;
      }
    }
    assert Canonical(out);
    assert out[..|out| - 1] == before;
    LookupAt(out, |out| - 1);
    LookupAt(ps, n);
    forall a ensures Lookup(out, a) == if a == p.actor && Lookup(ps, a) < p.counter then p.counter else Lookup(ps, a) {
      DropLast(out, a);
      DropLast(ps, a);
    }
    forall i | 0 <= i < |out| ensures out[i].actor == p.actor || Lists(ps, out[i].actor) {
      if i == |before| {
        assert ps[n].actor == out[i].actor;
      } else if before[i].actor != p.actor {
        var j :| 0 <= j < n && ps[..n][j].actor == before[i].actor;
        assert ps[j].actor == out[i].actor;
      }
    }
  }

  /** A frontier read from a frame is a version vector's array, whatever order its
      members came in. */
  lemma {:induction false} FrontierIsCanonical(ms: seq<Member>)
    requires FrontierOf(ms).Some?
    ensures Canonical(FrontierOf(ms).value)
  {
    hide Record, ActorOfText, NumberOfTree;
    if ms != [] {
      FrontierIsCanonical(ms[..|ms| - 1]);
      var last := ms[|ms| - 1];
      var p := Pair(ActorOfText(last.key).value, NumberOfTree(last.value).value);
      RecordObserves(FrontierOf(ms[..|ms| - 1]).value, p);
    }
  }

  lemma {:induction false} TreesRead<T>(xs: seq<T>, f: T -> Value, g: Value -> Option<T>)
    requires forall i :: 0 <= i < |xs| ==> g(f(xs[i])) == Some(xs[i])
    ensures ReadAll(Trees(xs, f), g) == Some(xs)
  {
    if xs != [] {
      var n := |xs| - 1;
      TreesRead(xs[..n], f, g);
      assert Trees(xs, f)[..n] == Trees(xs[..n], f);
      assert xs == xs[..n] + [xs[n]];
    }
  }

  lemma {:induction false} CountedReads(c: Counted)
    requires Issuable(c.id)
    ensures CountedOfTree(CountedTree(c)) == Some(c)
  {
    hide IdentityTree, IdentityOfTree, NumberTree, NarrowOfTree;
    IdentityReads(c.id);
    NumberReads(c.count);
  }

  lemma {:induction false} SpanReads(s: Span)
    ensures SpanOfTree(SpanTree(s)) == Some(s)
  {
    hide NumberTree, NarrowOfTree;
    NumberReads(s.start);
    NumberReads(s.end);
  }

  lemma {:induction false} RunReads(r: WireRun)
    requires RunWritable(r)
    ensures RunOfTree(RunTree(r), r.marker) == Some(r)
  {
    hide Find, LinkTree, LinkOfTree, IdentityTree, IdentityOfTree, NumberTree, NumberOfTree, NarrowOfTree;
    var v := RunTree(r);
    RunFields(r);
    IdentityReads(r.origin);
    LinkReads(r.link);
    NumberReads(r.length);
    NumberReads(1);
  }

  lemma {:induction false} RunFields(r: WireRun)
    ensures Find(RunTree(r).members, KEY_O) == Some(IdentityTree(r.origin))
    ensures Find(RunTree(r).members, KEY_K) == Some(LinkTree(r.link))
    ensures Find(RunTree(r).members, KEY_C) == Some(String(r.content))
    ensures Find(RunTree(r).members, KEY_N) == Some(NumberTree(r.length))
    ensures r.marker ==> Find(RunTree(r).members, KEY_M) == Some(NumberTree(1))
    ensures |RunTree(r).members| == if r.marker then 5 else 4
  {
    hide Find, LinkTree, IdentityTree, NumberTree;
    var o, k, c, n := Member(KEY_O, IdentityTree(r.origin)), Member(KEY_K, LinkTree(r.link)),
                      Member(KEY_C, String(r.content)), Member(KEY_N, NumberTree(r.length));
    var m := Member(KEY_M, NumberTree(1));
    var ms := RunTree(r).members;
    var tail := if r.marker then [m] else [];
    assert ms == [o] + [k, c, n] + tail;
    forall key ensures Find(ms, key)
      == if key == KEY_O then Some(o.value) else if key == KEY_K then Some(k.value)
         else if key == KEY_C then Some(c.value) else if key == KEY_N then Some(n.value) else Find(tail, key)
    {
      FindConcat([o] + [k, c, n], tail, key);
      FindHead(o, [k, c, n], key);
      Find3(k, c, n, key);
    }
    if r.marker {
      assert tail == [m] + [];
      FindHead(m, [], KEY_M);
    }
  }

  // ---- Every tree is text ----

  lemma {:induction false} NumberIsWritable(value: nat)
    ensures Writable(NumberTree(value))
  {
    HexIsText(value, 16);
  }

  lemma {:induction false} IdentityIsWritable(id: Identity)
    ensures Writable(IdentityTree(id))
  {
    hide Hex, IsUtf8;
    HexIsText(id.actor, 32);
    NumberIsWritable(id.counter);
  }

  lemma {:induction false} OptionalIsWritable(id: Option<Identity>)
    ensures Writable(OptionalTree(id))
  {
    if id.Some? {
      IdentityIsWritable(id.value);
    }
  }

  lemma {:induction false} LinkIsWritable(link: Link)
    ensures Writable(LinkTree(link))
  {
    hide IsUtf8, OptionalTree, NumberTree;
    AsciiIsText(KEY_P);
    AsciiIsText(KEY_S);
    AsciiIsText(KEY_R);
    OptionalIsWritable(link.parent);
    OptionalIsWritable(link.rightOrigin);
    NumberIsWritable(if link.side.Left? then 0 else 1);
  }

  lemma {:induction false} FrontierIsWritable(ps: seq<Pair>)
    ensures Writable(Object(FrontierMembers(ps)))
  {
    hide Hex, NumberTree, IsUtf8;
    if ps != [] {
      var n := |ps| - 1;
      FrontierIsWritable(ps[..n]);
      HexIsText(ps[n].actor, 32);
      NumberIsWritable(ps[n].counter);
      var ms, before := FrontierMembers(ps), FrontierMembers(ps[..n]);
      assert ms == before + [FrontierMember(ps[n])];
      MembersWritable(before, FrontierMember(ps[n]));
    }
  }

  lemma {:induction false} MembersWritable(ms: seq<Member>, m: Member)
    requires Writable(Object(ms)) && IsUtf8(m.key) && Writable(m.value)
    ensures Writable(Object(ms + [m]))
  {
    hide IsUtf8;
  }

  lemma {:induction false} TreesWritable<T>(xs: seq<T>, f: T -> Value)
    requires forall i :: 0 <= i < |xs| ==> Writable(f(xs[i]))
    ensures Writable(Array(Trees(xs, f)))
  {
    hide IsUtf8;
    if xs != [] {
      var n := |xs| - 1;
      TreesWritable(xs[..n], f);
    }
  }

  lemma {:induction false} RunIsWritable(r: WireRun)
    requires IsUtf8(r.content)
    ensures Writable(RunTree(r))
  {
    hide IsUtf8, IdentityTree, LinkTree, NumberTree;
    AsciiIsText(KEY_O);
    AsciiIsText(KEY_K);
    AsciiIsText(KEY_C);
    AsciiIsText(KEY_N);
    AsciiIsText(KEY_M);
    IdentityIsWritable(r.origin);
    LinkIsWritable(r.link);
    NumberIsWritable(r.length);
    NumberIsWritable(1);
  }

  lemma {:induction false} CountedIsWritable(c: Counted)
    ensures Writable(CountedTree(c))
  {
    hide IsUtf8, IdentityTree, NumberTree;
    IdentityIsWritable(c.id);
    NumberIsWritable(c.count);
  }

  lemma {:induction false} SpanIsWritable(s: Span)
    ensures Writable(SpanTree(s))
  {
    hide IsUtf8, NumberTree;
    NumberIsWritable(s.start);
    NumberIsWritable(s.end);
  }

  // ---- The members of a frame ----

  lemma {:induction false} HeadIsWritable(o: WireOperation)
    requires Reserved(o) <= o.timestamp.counter
    ensures Writable(Object(HeadMembers(o)))
  {
    hide IsUtf8, IdentityTree, NumberTree, FrontierMembers, Reserved;
    AsciiIsText(KEY_T);
    AsciiIsText(KEY_TS);
    AsciiIsText(KEY_V);
    AsciiIsText(KEY_A);
    AsciiIsText(TAG_EDIT);
    AsciiIsText(TAG_UNDO);
    IdentityIsWritable(o.timestamp);
    FrontierIsWritable(o.version);
    NumberIsWritable(o.timestamp.counter - Reserved(o) + 1);
    NumberIsWritable(Reserved(o));
  }

  /** The texts of an edit are text. */
  ghost predicate TextsAreUtf8(o: WireOperation)
    requires o.WireEdit?
  {
    && (forall i :: 0 <= i < |o.newText| ==> IsUtf8(o.newText[i]))
    && (forall i :: 0 <= i < |o.inserted| ==> IsUtf8(o.inserted[i].content))
  }

  lemma {:induction false} AllocatesTexts(o: WireOperation)
    requires o.WireEdit? && Allocates(o)
    ensures TextsAreUtf8(o)
  {
    hide Tiles, LinkAllowed, IsUtf8;
    forall i | 0 <= i < |o.inserted| ensures IsUtf8(o.inserted[i].content) {
      assert RunFits(o.inserted[i], o);
    }
  }

  lemma {:induction false} EditIsWritable(o: WireOperation)
    requires o.WireEdit? && TextsAreUtf8(o)
    ensures Writable(Object(EditMembers(o)))
  {
    hide IsUtf8, IdentityTree, SpanTree, RunTree, CountedTree, Trees;
    AsciiIsText(KEY_DID);
    AsciiIsText(KEY_R);
    AsciiIsText(KEY_NT);
    AsciiIsText(KEY_IF);
    AsciiIsText(KEY_DR);
    IdentityIsWritable(o.deletionId);
    forall i | 0 <= i < |o.ranges| ensures Writable(SpanTree(o.ranges[i])) {
      SpanIsWritable(o.ranges[i]);
    }
    forall i | 0 <= i < |o.inserted| ensures Writable(RunTree(o.inserted[i])) {
      RunIsWritable(o.inserted[i]);
    }
    forall i | 0 <= i < |o.deleted| ensures Writable(CountedTree(o.deleted[i])) {
      CountedIsWritable(o.deleted[i]);
    }
    TreesWritable(o.ranges, SpanTree);
    TreesWritable(o.newText, TextTree);
    TreesWritable(o.inserted, RunTree);
    TreesWritable(o.deleted, CountedTree);
  }

  lemma {:induction false} ObjectsWritable(a: seq<Member>, b: seq<Member>)
    requires Writable(Object(a)) && Writable(Object(b))
    ensures Writable(Object(a + b))
  {
    hide IsUtf8;
  }

  lemma {:induction false} MarkerIsWritable(o: WireOperation)
    requires o.WireEdit?
    ensures Writable(Object(MarkerMembers(o)))
  {
    hide IsUtf8, NumberTree;
    AsciiIsText(KEY_MARKER);
    NumberIsWritable(1);
  }

  lemma {:induction false} UndoIsWritable(cs: seq<Counted>)
    ensures Writable(Object([Member(KEY_C, Array(Trees(cs, CountedTree)))]))
  {
    hide IsUtf8, CountedTree, Trees;
    AsciiIsText(KEY_C);
    forall i | 0 <= i < |cs| ensures Writable(CountedTree(cs[i])) {
      CountedIsWritable(cs[i]);
    }
    TreesWritable(cs, CountedTree);
  }

  lemma {:induction false} FrameIsWritable(o: WireOperation)
    requires InOrder(o)
    ensures Writable(Object(Members(o)))
  {
    hide IsUtf8, HeadMembers, MarkerMembers, EditMembers, Trees, Writable, Allocates, Reserved, RunWritable, CountsIssuable;
    HeadIsWritable(o);
    if o.WireEdit? {
      AllocatesTexts(o);
      MarkerIsWritable(o);
      EditIsWritable(o);
      ObjectsWritable(HeadMembers(o), MarkerMembers(o));
      ObjectsWritable(HeadMembers(o) + MarkerMembers(o), EditMembers(o));
    } else {
      UndoIsWritable(o.counts);
      ObjectsWritable(HeadMembers(o), [Member(KEY_C, Array(Trees(o.counts, CountedTree)))]);
    }
  }

  lemma {:induction false} HeadFields(o: WireOperation, key: seq<Byte>)
    requires Reserved(o) <= o.timestamp.counter
    ensures Find(HeadMembers(o), key)
         == if key == KEY_T then Some(String(if o.WireEdit? then TAG_EDIT else TAG_UNDO))
            else if key == KEY_TS then Some(IdentityTree(o.timestamp))
            else if key == KEY_V then Some(Object(FrontierMembers(o.version)))
            else if key == KEY_A then Some(AllocationTree(o.timestamp, Reserved(o))) else None
  {
    hide Find, IdentityTree, FrontierMembers, AllocationTree, Reserved;
    var ms := HeadMembers(o);
    assert ms == [ms[0]] + [ms[1], ms[2], ms[3]];
    FindHead(ms[0], [ms[1], ms[2], ms[3]], key);
    Find3(ms[1], ms[2], ms[3], key);
  }

  lemma {:induction false} EditFields(o: WireOperation, key: seq<Byte>)
    requires o.WireEdit?
    ensures Find(EditMembers(o), key)
         == if key == KEY_DID then Some(IdentityTree(o.deletionId))
            else if key == KEY_R then Some(Array(Trees(o.ranges, SpanTree)))
            else if key == KEY_NT then Some(Array(Trees(o.newText, TextTree)))
            else if key == KEY_IF then Some(Array(Trees(o.inserted, RunTree)))
            else if key == KEY_DR then Some(Array(Trees(o.deleted, CountedTree))) else None
  {
    hide Find, IdentityTree, Trees;
    var ms := EditMembers(o);
    assert ms == [ms[0]] + ([ms[1]] + [ms[2], ms[3], ms[4]]);
    FindHead(ms[0], [ms[1]] + [ms[2], ms[3], ms[4]], key);
    FindHead(ms[1], [ms[2], ms[3], ms[4]], key);
    Find3(ms[2], ms[3], ms[4], key);
  }

  lemma {:induction false} MarkerFields(o: WireOperation, key: seq<Byte>)
    requires o.WireEdit?
    ensures Find(MarkerMembers(o), key) == if o.markerEdit && key == KEY_MARKER then Some(NumberTree(1)) else None
  {
    hide NumberTree;
    if o.markerEdit {
      assert MarkerMembers(o) == [Member(KEY_MARKER, NumberTree(1))] + [];
      FindHead(Member(KEY_MARKER, NumberTree(1)), [], key);
    }
  }

  lemma {:induction false} AllFields(o: WireOperation, key: seq<Byte>)
    requires Reserved(o) <= o.timestamp.counter
    ensures (o.WireEdit? ==>
               Find(Members(o), key)
               == (if Find(HeadMembers(o), key).Some? then Find(HeadMembers(o), key)
                   else if Find(MarkerMembers(o), key).Some? then Find(MarkerMembers(o), key) else Find(EditMembers(o), key)))
    ensures (o.WireUndo? ==>
               Find(Members(o), key)
               == (if Find(HeadMembers(o), key).Some? then Find(HeadMembers(o), key)
                   else if key == KEY_C then Some(Array(Trees(o.counts, CountedTree))) else None))
  {
    hide Find, HeadMembers, MarkerMembers, EditMembers, Trees, Reserved;
    if o.WireEdit? {
      FindConcat(HeadMembers(o) + MarkerMembers(o), EditMembers(o), key);
      FindConcat(HeadMembers(o), MarkerMembers(o), key);
    } else {
      var last := Member(KEY_C, Array(Trees(o.counts, CountedTree)));
      FindConcat(HeadMembers(o), [last], key);
      assert [last] == [last] + [];
      FindHead(last, [], key);
      FindNothing(key);
    }
  }

  lemma {:induction false} FindNothing(key: seq<Byte>)
    ensures Find([], key).None?
  {
  }

  lemma {:induction false} AllocationReads(o: WireOperation)
    requires InOrder(o)
    ensures AllocationAgrees(AllocationTree(o.timestamp, Reserved(o)), o.timestamp, o.version, Reserved(o))
  {
    hide NumberTree, NumberOfTree, Allocates, Head;
    NumberReads(o.timestamp.counter - Reserved(o) + 1);
    NumberReads(Reserved(o));
  }

  lemma {:induction false} UndoReads(o: WireOperation)
    requires InOrder(o) && o.WireUndo? && Canonical(o.version)
    ensures UndoOfTree(Object(Members(o))) == Some(o)
  {
    hide Find, Members, HeadMembers, IdentityTree, IdentityOfTree, FrontierOf, FrontierMembers, Trees, ReadAll, AllocationTree,
         AllocationAgrees, Issuable, Canonical, Head;
    var root := Object(Members(o));
    forall key ensures Find(root.members, key)
      == if key == KEY_T then Some(String(TAG_UNDO)) else if key == KEY_TS then Some(IdentityTree(o.timestamp))
         else if key == KEY_V then Some(Object(FrontierMembers(o.version)))
         else if key == KEY_A then Some(AllocationTree(o.timestamp, Reserved(o)))
         else if key == KEY_C then Some(Array(Trees(o.counts, CountedTree))) else None
    {
      AllFields(o, key);
      HeadFields(o, key);
    }
    MembersCount(o);
    IdentityReads(o.timestamp);
    FrontierReads(o.version);
    forall i | 0 <= i < |o.counts| ensures CountedOfTree(CountedTree(o.counts[i])) == Some(o.counts[i]) {
      CountedReads(o.counts[i]);
    }
    TreesRead(o.counts, CountedTree, CountedOfTree);
    AllocationReads(o);
  }

  lemma {:induction false} MembersCount(o: WireOperation)
    requires Reserved(o) <= o.timestamp.counter
    ensures |Members(o)| == if o.WireUndo? then 5 else if o.markerEdit then 10 else 9
  {
  }

  /** A valid edit's runs are all markers in a marker edit and none elsewhere. */
  lemma {:induction false} RunMarkers(o: WireOperation)
    requires o.WireEdit? && Allocates(o)
    ensures forall i :: 0 <= i < |o.inserted| ==> o.inserted[i].marker == o.markerEdit
  {
    hide Tiles, LinkAllowed, IsUtf8, Holds;
    forall i | 0 <= i < |o.inserted| ensures o.inserted[i].marker == o.markerEdit {
      assert RunFits(o.inserted[i], o);
    }
  }

  lemma {:induction false} EditReads(o: WireOperation)
    requires InOrder(o) && o.WireEdit? && Canonical(o.version)
    ensures EditOfTree(Object(Members(o)), o.markerEdit) == Some(o)
  {
    hide Find, Members, HeadMembers, EditMembers, MarkerMembers, IdentityTree, IdentityOfTree, FrontierOf, FrontierMembers,
         Trees, ReadAll, AllocationTree, AllocationAgrees, Issuable, Canonical, Head, Allocates, RunTree, RunWritable,
         SpanTree, SpanOfTree, CountedTree, CountedOfTree, NumberTree, NumberOfTree, RunOfTree, Reserved;
    var root := Object(Members(o));
    forall key ensures Find(root.members, key)
      == if key == KEY_T then Some(String(TAG_EDIT)) else if key == KEY_TS then Some(IdentityTree(o.timestamp))
         else if key == KEY_V then Some(Object(FrontierMembers(o.version)))
         else if key == KEY_A then Some(AllocationTree(o.timestamp, Reserved(o)))
         else if o.markerEdit && key == KEY_MARKER then Some(NumberTree(1))
         else if key == KEY_DID then Some(IdentityTree(o.deletionId))
         else if key == KEY_R then Some(Array(Trees(o.ranges, SpanTree)))
         else if key == KEY_NT then Some(Array(Trees(o.newText, TextTree)))
         else if key == KEY_IF then Some(Array(Trees(o.inserted, RunTree)))
         else if key == KEY_DR then Some(Array(Trees(o.deleted, CountedTree))) else None
    {
      AllFields(o, key);
      HeadFields(o, key);
      MarkerFields(o, key);
      EditFields(o, key);
    }
    MembersCount(o);
    NumberReads(1);
    IdentityReads(o.timestamp);
    AllocatesDeletion(o);
    FrontierReads(o.version);
    ListsRead(o);
    AllocationReads(o);
  }

  lemma {:induction false} AllocatesDeletion(o: WireOperation)
    requires o.WireEdit? && Allocates(o)
    ensures o.deletionId == o.timestamp
  {
    hide EditFits, Tiles;
  }

  lemma {:induction false} ListsRead(o: WireOperation)
    requires InOrder(o) && o.WireEdit?
    ensures ReadAll(Trees(o.ranges, SpanTree), SpanOfTree) == Some(o.ranges)
    ensures ReadAll(Trees(o.newText, TextTree), TextOfTree) == Some(o.newText)
    ensures ReadAll(Trees(o.inserted, RunTree), RunReader(o.markerEdit)) == Some(o.inserted)
    ensures ReadAll(Trees(o.deleted, CountedTree), CountedOfTree) == Some(o.deleted)
  {
    hide Trees, ReadAll, Allocates, RunTree, RunWritable, RunOfTree, SpanTree, SpanOfTree, CountedTree, CountedOfTree, Reserved, Head;
    forall i | 0 <= i < |o.ranges| ensures SpanOfTree(SpanTree(o.ranges[i])) == Some(o.ranges[i]) {
      SpanReads(o.ranges[i]);
    }
    RunMarkers(o);
    forall i | 0 <= i < |o.inserted| ensures RunReader(o.markerEdit)(RunTree(o.inserted[i])) == Some(o.inserted[i]) {
      RunReads(o.inserted[i]);
    }
    forall i | 0 <= i < |o.deleted| ensures CountedOfTree(CountedTree(o.deleted[i])) == Some(o.deleted[i]) {
      CountedReads(o.deleted[i]);
    }
    TreesRead(o.ranges, SpanTree, SpanOfTree);
    TreesRead(o.newText, TextTree, TextOfTree);
    TreesRead(o.inserted, RunTree, RunReader(o.markerEdit));
    TreesRead(o.deleted, CountedTree, CountedOfTree);
  }

  // ---- The frame ----

  lemma {:induction false} PayloadOfFrame(o: WireOperation)
    requires Reserved(o) <= o.timestamp.counter && |Frame(o)| <= FRAME_LIMIT
    ensures ClaimsMarker(Frame(o)) <==> o.WireEdit? && o.markerEdit
    ensures Payload(Frame(o), VersionFor(o.WireEdit? && o.markerEdit))
         == Accepted(Print(Object(Members(o))))
  {
    hide Print, Members, Reserved;
    var version := if o.WireEdit? && o.markerEdit then VERSION_MARKER else VERSION_PLAIN;
    var text := Print(Object(Members(o)));
    var f := Frame(o);
    assert f == MAGIC + version + [COLON] + text;
    assert f[..4] == MAGIC && f[4..8] == version && f[8] == COLON && f[9..] == text;
    VersionIsHex(version);
  }

  lemma {:induction false} VersionIsHex(version: seq<Byte>)
    requires version == VERSION_PLAIN || version == VERSION_MARKER
    ensures ReadHex(version).Some?
  {
    var a := version[..3];
    var b := a[..2];
    assert b[..1] == [0x30] && ReadHex([0x30]).Some?;
    assert ReadHex(b).Some?;
    assert ReadHex(a).Some?;
  }

  /** The frame of an operation in order carries its members exactly when they
      keep the reader's limits. */
  lemma {:induction false} RootOfFrame(o: WireOperation)
    requires InOrder(o) && |Frame(o)| <= FRAME_LIMIT
    ensures Root(Frame(o), VersionFor(o.WireEdit? && o.markerEdit))
         == (if Spend(Object(Members(o)), 0, MAX_ELEMENTS).Some? then Accepted(Object(Members(o))) else Refused(Malformed))
  {
    hide Frame, Print, Payload, Members, Document, Spend, InOrder, Writable, Reserved;
    InOrderParts(o);
    PayloadOfFrame(o);
    FrameIsWritable(o);
    PrintIsShorter(o);
    DocumentOfPrint(Object(Members(o)));
  }

  /** Decoding an encoded operation gives it back: edits, marker edits and undos,
      for every operation the encoder accepts. */
  lemma {:induction false} MeaningOfFrame(o: WireOperation)
    requires Encodable(o) && Canonical(o.version)
    ensures Meaning(Frame(o)) == Accepted(o)
  {
    hide Frame, Members, UndoOfTree, EditOfTree, Spend, Find, InOrder, Reserved, ClaimsMarker, Root;
    InOrderParts(o);
    PayloadOfFrame(o);
    RootOfFrame(o);
    TagReads(o);
    if o.WireEdit? {
      EditReads(o);
    } else {
      UndoReads(o);
    }
  }

  lemma {:induction false} InOrderParts(o: WireOperation)
    requires InOrder(o)
    ensures Reserved(o) <= o.timestamp.counter
  {
    hide Allocates, RunWritable;
  }

  lemma {:induction false} PrintIsShorter(o: WireOperation)
    requires Reserved(o) <= o.timestamp.counter && |Frame(o)| <= FRAME_LIMIT
    ensures |Print(Object(Members(o)))| <= MAX_INPUT
  {
    hide Print, Members, Reserved;
  }

  lemma {:induction false} TagReads(o: WireOperation)
    requires Reserved(o) <= o.timestamp.counter
    ensures Field(Object(Members(o)), KEY_T) == String(if o.WireEdit? then TAG_EDIT else TAG_UNDO)
  {
    hide Find, Members, HeadMembers, MarkerMembers, EditMembers, Reserved;
    AllFields(o, KEY_T);
    HeadFields(o, KEY_T);
  }

  /** Two operations with one frame are one operation. */
  lemma {:induction false} FramesAreUnique(a: WireOperation, b: WireOperation)
    requires Encodable(a) && Encodable(b) && Canonical(a.version) && Canonical(b.version)
    requires Frame(a) == Frame(b)
    ensures a == b
  {
    hide *;
    MeaningOfFrame(a);
    MeaningOfFrame(b);
  }

  /** Whatever bytes they came from, an accepted edit tiles its interval, and an
      accepted operation's frontier is a version vector's array. */
  lemma {:induction false} MeaningIsSound(bytes: seq<Byte>)
    requires Meaning(bytes).Accepted?
    ensures Canonical(Meaning(bytes).value.version)
    ensures Meaning(bytes).value.WireEdit? ==> Allocates(Meaning(bytes).value)
    ensures Head(Meaning(bytes).value.version, Meaning(bytes).value.timestamp.actor)
          < Meaning(bytes).value.timestamp.counter - Reserved(Meaning(bytes).value) + 1
  {
    hide Document, Payload, Find, Allocates, FrontierOf, IdentityOfTree, ReadAll, Canonical, Reserved, Head, Schema;
    var root := Root(bytes, VersionFor(ClaimsMarker(bytes))).value;
    FrontierIsCanonical(Field(root, KEY_V).members);
    UndoReserves(Meaning(bytes).value);
  }

  lemma {:induction false} UndoReserves(o: WireOperation)
    ensures o.WireUndo? ==> Reserved(o) == 1
  {
  }
}
