/** Which operations fit a frame. The reader counts values, and a frame may have so
    many bytes; an operation that is in order can be encoded exactly if it keeps both
    limits. For an undo that is a limit on its targets, for an insertion on its text. */
module FrameLimits {
  import opened Ids
  import opened Bytes
  import opened Clock
  import opened FugueOrder
  import opened WireOperations
  import opened Json
  import opened JsonLaws
  import opened OperationFrames

  // ---- Counting values ---------------------------------------------------

  /** How many values a value is made of, itself included. */
  function Values(v: Value): nat {
    match v
    case Array(elements) => 1 + ValuesIn(elements)
    case Object(members) => 1 + ValuesOf(members)
    case _ => 1
  }

  function ValuesIn(vs: seq<Value>): nat {
    if vs == [] then 0 else Values(vs[0]) + ValuesIn(vs[1..])
  }

  function ValuesOf(ms: seq<Member>): nat {
    if ms == [] then 0 else Values(ms[0].value) + ValuesOf(ms[1..])
  }

  /** Strings, arrays and objects whose texts, keys and nesting the reader allows. */
  predicate Sound(v: Value, room: nat) {
    match v
    case String(text) => |text| <= MAX_TEXT
    case Array(elements) => room > 0 && AllSound(elements, room - 1)
    case Object(members) => room > 0 && MembersSound(members, room - 1) && KeysDiffer(members)
    case _ => false
  }

  predicate AllSound(vs: seq<Value>, room: nat) {
    vs == [] || (Sound(vs[0], room) && AllSound(vs[1..], room))
  }

  predicate MembersSound(ms: seq<Member>, room: nat) {
    ms == [] || (|ms[0].key| <= MAX_KEY && Sound(ms[0].value, room) && MembersSound(ms[1..], room))
  }

  predicate KeysDiffer(ms: seq<Member>) {
    forall i, j :: 0 <= i < j < |ms| ==> ms[i].key != ms[j].key
  }

  /** The budget is spent one for each value. */
  lemma {:induction false} SpendIsCount(v: Value, depth: nat, budget: nat)
    requires depth <= MAX_DEPTH && Sound(v, MAX_DEPTH - depth)
    ensures Spend(v, depth, budget) == if Values(v) <= budget then Some(budget - Values(v)) else None
    decreases v, 1
  {
    hide SpendAll, SpendMembers, ValuesIn, ValuesOf, AllSound, MembersSound, KeysDiffer;
    if budget > 0 {
      match v
      case String(_) =>
      case Array(elements) => SpendAllIsCount(elements, depth + 1, budget - 1);
      case Object(members) =>
        NoneDone(members);
        SpendMembersIsCount(members, [], depth + 1, budget - 1);
    }
  }

  lemma {:induction false} NoneDone(ms: seq<Member>)
    requires KeysDiffer(ms)
    ensures KeysDiffer([] + ms)
  {
    assert [] + ms == ms;
  }

  lemma {:induction false} SpendAllIsCount(vs: seq<Value>, depth: nat, budget: nat)
    requires depth <= MAX_DEPTH && AllSound(vs, MAX_DEPTH - depth)
    ensures SpendAll(vs, depth, budget) == if ValuesIn(vs) <= budget then Some(budget - ValuesIn(vs)) else None
    decreases vs, 0
  {
    hide Spend, Sound, Values;
    if vs != [] {
      SpendIsCount(vs[0], depth, budget);
      var left := Spend(vs[0], depth, budget);
      if left.Some? { SpendAllIsCount(vs[1..], depth, left.value); }
    }
  }

  lemma {:induction false} SpendMembersIsCount(ms: seq<Member>, done: seq<Member>, depth: nat, budget: nat)
    requires depth <= MAX_DEPTH && MembersSound(ms, MAX_DEPTH - depth) && KeysDiffer(done + ms)
    ensures SpendMembers(ms, done, depth, budget) == if ValuesOf(ms) <= budget then Some(budget - ValuesOf(ms)) else None
    decreases ms, 0
  {
    hide Spend, Sound, Values, HasKey, KeysDiffer;
    if ms != [] {
      NewKey(done, ms);
      SpendIsCount(ms[0].value, depth, budget);
      var left := Spend(ms[0].value, depth, budget);
      if left.Some? { SpendMembersIsCount(ms[1..], done + [ms[0]], depth, left.value); }
    }
  }

  lemma {:induction false} NewKey(done: seq<Member>, ms: seq<Member>)
    requires ms != [] && KeysDiffer(done + ms)
    ensures !HasKey(done, ms[0].key) && KeysDiffer(done + [ms[0]] + ms[1..])
  {
    assert done + [ms[0]] + ms[1..] == done + ms;
    var all := done + ms;
    forall i | 0 <= i < |done|
      ensures done[i].key != ms[0].key
    {
      assert all[i] == done[i] && all[|done|] == ms[0];
    }
  }

  // ---- Counting bytes ----------------------------------------------------

  function Size(v: Value): nat {
    match v
    case String(text) => |EscapeAll(text)| + 2
    case Array(elements) => 2 + SizeIn(elements)
    case Object(members) => 2 + SizeOf(members)
    case _ => |Print(v)|
  }

  function SizeIn(vs: seq<Value>): nat {
    if vs == [] then 0 else Size(vs[0]) + (if |vs| == 1 then 0 else 1) + SizeIn(vs[1..])
  }

  function SizeOf(ms: seq<Member>): nat {
    if ms == [] then 0
    else |EscapeAll(ms[0].key)| + 3 + Size(ms[0].value) + (if |ms| == 1 then 0 else 1) + SizeOf(ms[1..])
  }

  lemma {:induction false} PrintSize(v: Value)
    ensures |Print(v)| == Size(v)
    decreases v, 1
  {
    hide SizeIn, SizeOf, PrintAll, PrintMembers, EscapeAll;
    match v
    case Array(elements) => PrintAllSize(elements);
    case Object(members) => PrintMembersSize(members);
    case _ =>
  }

  lemma {:induction false} PrintAllSize(vs: seq<Value>)
    ensures |PrintAll(vs)| == SizeIn(vs)
    decreases vs, 0
  {
    hide Print, Size;
    if vs != [] {
      PrintSize(vs[0]);
      PrintAllSize(vs[1..]);
      if |vs| == 1 { assert vs[1..] == []; }
    }
  }

  lemma {:induction false} PrintMembersSize(ms: seq<Member>)
    ensures |PrintMembers(ms)| == SizeOf(ms)
    decreases ms, 0
  {
    hide Print, Size, EscapeAll;
    if ms != [] {
      PrintSize(ms[0].value);
      PrintMembersSize(ms[1..]);
      if |ms| == 1 { assert ms[1..] == []; }
    }
  }

  /** Texts and keys of at most 32 bytes, none of them escaped. */
  predicate Short(v: Value) {
    match v
    case String(text) => |EscapeAll(text)| <= 32
    case Array(elements) => AllShort(elements)
    case Object(members) => MembersShort(members)
    case _ => false
  }

  predicate AllShort(vs: seq<Value>) {
    vs == [] || (Short(vs[0]) && AllShort(vs[1..]))
  }

  predicate MembersShort(ms: seq<Member>) {
    ms == [] || (|EscapeAll(ms[0].key)| <= 32 && Short(ms[0].value) && MembersShort(ms[1..]))
  }

  /** Each value, with its key and a comma, takes fewer than eighty bytes. */
  lemma {:induction false} SizeIsBounded(v: Value)
    requires Short(v)
    ensures Size(v) + 36 <= 80 * Values(v)
    decreases v, 1
  {
    hide SizeIn, SizeOf, ValuesIn, ValuesOf, AllShort, MembersShort, EscapeAll;
    match v
    case String(_) =>
    case Array(elements) => SizeInIsBounded(elements);
    case Object(members) => SizeOfIsBounded(members);
  }

  lemma {:induction false} SizeInIsBounded(vs: seq<Value>)
    requires AllShort(vs)
    ensures SizeIn(vs) <= 80 * ValuesIn(vs)
    decreases vs, 0
  {
    hide Size, Short, Values;
    if vs != [] {
      SizeIsBounded(vs[0]);
      SizeInIsBounded(vs[1..]);
    }
  }

  lemma {:induction false} SizeOfIsBounded(ms: seq<Member>)
    requires MembersShort(ms)
    ensures SizeOf(ms) <= 80 * ValuesOf(ms)
    decreases ms, 0
  {
    hide Size, Short, Values, EscapeAll;
    if ms != [] {
      SizeIsBounded(ms[0].value);
      SizeOfIsBounded(ms[1..]);
    }
  }

  // ---- The trees of an operation -----------------------------------------

  /** So many values, allowed by the reader; on request, nothing in it is long. */
  ghost predicate Is(v: Value, n: nat, room: nat, short: bool) {
    Values(v) == n && Sound(v, room) && (short ==> Short(v))
  }

  ghost predicate AllAre(vs: seq<Value>, n: nat, room: nat, short: bool) {
    ValuesIn(vs) == n && AllSound(vs, room) && (short ==> AllShort(vs))
  }

  ghost predicate MembersAre(ms: seq<Member>, n: nat, room: nat, short: bool) {
    ValuesOf(ms) == n && MembersSound(ms, room) && (short ==> MembersShort(ms))
  }

  lemma {:induction false} HexIsPlain(value: nat, digits: nat)
    ensures EscapeAll(Hex(value, digits)) == Hex(value, digits)
  {
    HexIsLiteral(value, digits);
    LiteralIsUnescaped(Hex(value, digits));
  }

  lemma {:induction false} HexIsLiteral(value: nat, digits: nat)
    ensures AllLiteral(Hex(value, digits))
  {
    if digits > 0 { HexIsLiteral(value / 16, digits - 1); }
  }

  lemma {:induction false} IsNumber(value: nat, room: nat)
    ensures Is(NumberTree(value), 1, room, true) && Size(NumberTree(value)) == 18
  {
    HexIsPlain(value, 16);
    hide Hex, EscapeAll;
  }

  lemma {:induction false} IsActor(actor: nat, room: nat)
    ensures Is(String(Hex(actor, 32)), 1, room, true) && Size(String(Hex(actor, 32))) == 34
  {
    HexIsPlain(actor, 32);
    hide Hex, EscapeAll;
  }

  lemma {:induction false} NoneAre(room: nat)
    ensures AllAre([], 0, room, true) && MembersAre([], 0, room, true)
    ensures SizeIn([]) == 0 && SizeOf([]) == 0
  {
  }

  lemma {:induction false} ArePair(v: Value, m: nat, w: Value, n: nat, room: nat, short: bool)
    requires Is(v, m, room, short) && Is(w, n, room, short)
    ensures Is(Array([v, w]), 1 + m + n, room + 1, short) && Size(Array([v, w])) == 3 + Size(v) + Size(w)
  {
    hide Sound, Values, Short, Size;
    var one, vs := [w], [v, w];
    assert one[1..] == [] && vs[1..] == one;
    assert AllSound([], room) && AllShort([]) && ValuesIn([]) == 0 && SizeIn([]) == 0;
    assert ValuesIn(one) == n && AllSound(one, room) && SizeIn(one) == Size(w);
    assert short ==> AllShort(one);
    PairIs(vs, m + n, room, short);
  }

  lemma {:induction false} PairIs(vs: seq<Value>, n: nat, room: nat, short: bool)
    requires ValuesIn(vs) == n && AllSound(vs, room) && (short ==> AllShort(vs))
    ensures Is(Array(vs), 1 + n, room + 1, short) && Size(Array(vs)) == 2 + SizeIn(vs)
  {
    hide ValuesIn, AllSound, AllShort, SizeIn;
  }

  lemma {:induction false} IsIdentity(id: Identity, room: nat)
    ensures Is(IdentityTree(id), 3, room + 1, true) && Size(IdentityTree(id)) == 55
  {
    IsActor(id.actor, room);
    IsNumber(id.counter, room);
    hide Is, Hex, NumberTree, Size;
    ArePair(String(Hex(id.actor, 32)), 1, NumberTree(id.counter), 1, room, true);
  }

  lemma {:induction false} IsOptional(id: Option<Identity>, room: nat)
    ensures Is(OptionalTree(id), if id.Some? then 3 else 1, room + 1, true) && Size(OptionalTree(id)) == if id.Some? then 55 else 2
  {
    if id.Some? { IsIdentity(id.value, room); }
  }

  lemma {:induction false} IsCounted(c: Counted, room: nat)
    ensures Is(CountedTree(c), 5, room + 2, true)
  {
    IsIdentity(c.id, room);
    IsNumber(c.count, room + 1);
    hide Is, IdentityTree, NumberTree, Size;
    ArePair(IdentityTree(c.id), 3, NumberTree(c.count), 1, room + 1, true);
  }

  lemma {:induction false} IsSpan(s: Span, room: nat)
    ensures Is(SpanTree(s), 3, room + 1, true)
  {
    IsNumber(s.start, room);
    IsNumber(s.end, room);
    hide Is, NumberTree, Size;
    ArePair(NumberTree(s.start), 1, NumberTree(s.end), 1, room, true);
  }

  lemma {:induction false} IsAllocation(timestamp: Identity, count: nat, room: nat)
    requires count <= timestamp.counter
    ensures Is(AllocationTree(timestamp, count), 3, room + 1, true) && Size(AllocationTree(timestamp, count)) == 39
  {
    var first: nat := timestamp.counter - count + 1;
    IsNumber(first, room);
    IsNumber(count, room);
    hide Is, NumberTree, Size;
    ArePair(NumberTree(first), 1, NumberTree(count), 1, room, true);
  }

  lemma {:induction false} OneMore(vs: seq<Value>, m: nat, v: Value, n: nat, room: nat, short: bool)
    requires AllAre(vs, m, room, short) && Is(v, n, room, short)
    ensures AllAre(vs + [v], m + n, room, short)
    decreases |vs|
  {
    hide Sound, Values, Short;
    if vs == [] {
      assert vs + [v] == [v] && [v][1..] == [];
    } else {
      assert (vs + [v])[1..] == vs[1..] + [v];
      OneMore(vs[1..], ValuesIn(vs[1..]), v, n, room, short);
    }
  }

  lemma {:induction false} TreesAre<T>(xs: seq<T>, f: T -> Value, n: nat, room: nat, short: bool)
    requires forall i :: 0 <= i < |xs| ==> Is(f(xs[i]), n, room, short)
    ensures AllAre(Trees(xs, f), n * |xs|, room, short)
  {
    hide Is, AllAre;
    if xs == [] {
      NoneAre(room);
      NotShort([], room, short);
    } else {
      var init := xs[..|xs| - 1];
      TreesAre(init, f, n, room, short);
      OneMore(Trees(init, f), n * |init|, f(xs[|xs| - 1]), n, room, short);
      assert n * |init| + n == n * |xs|;
    }
  }

  lemma {:induction false} NotShort(vs: seq<Value>, room: nat, short: bool)
    requires AllAre(vs, 0, room, true)
    ensures AllAre(vs, 0, room, short)
  {
  }

  lemma {:induction false} IsArray(vs: seq<Value>, n: nat, room: nat, short: bool)
    requires AllAre(vs, n, room, short)
    ensures Is(Array(vs), 1 + n, room + 1, short)
  {
    hide ValuesIn, AllSound, AllShort;
  }

  lemma {:induction false} IsObject(ms: seq<Member>, n: nat, room: nat, short: bool)
    requires MembersAre(ms, n, room, short) && KeysDiffer(ms)
    ensures Is(Object(ms), 1 + n, room + 1, short)
  {
    hide ValuesOf, MembersSound, MembersShort, KeysDiffer;
  }

  lemma {:induction false} OneMoreMember(ms: seq<Member>, m: nat, key: seq<Byte>, v: Value, n: nat, room: nat, short: bool)
    requires MembersAre(ms, m, room, short) && Is(v, n, room, short) && |key| <= 32 && AllLiteral(key)
    ensures MembersAre(ms + [Member(key, v)], m + n, room, short)
    decreases |ms|
  {
    LiteralIsUnescaped(key);
    hide Sound, Values, Short, EscapeAll;
    var x := Member(key, v);
    if ms == [] {
      assert ms + [x] == [x] && [x][1..] == [];
    } else {
      assert (ms + [x])[1..] == ms[1..] + [x];
      OneMoreMember(ms[1..], ValuesOf(ms[1..]), key, v, n, room, short);
    }
  }

  lemma {:induction false} FrontierAre(ps: seq<Pair>, room: nat)
    ensures MembersAre(FrontierMembers(ps), |ps|, room, true)
  {
    if ps == [] {
      NoneAre(room);
    } else {
      var init, p := ps[..|ps| - 1], ps[|ps| - 1];
      FrontierAre(init, room);
      IsNumber(p.counter, room);
      HexIsLiteral(p.actor, 32);
      hide MembersAre, Is, Hex, NumberTree;
      OneMoreMember(FrontierMembers(init), |init|, Hex(p.actor, 32), NumberTree(p.counter), 1, room, true);
    }
  }

  lemma {:induction false} FrontierKeys(ps: seq<Pair>)
    requires forall i, j :: 0 <= i < j < |ps| ==> ps[i].actor < ps[j].actor
    ensures KeysDiffer(FrontierMembers(ps))
  {
    var ms := FrontierMembers(ps);
    forall i, j | 0 <= i < j < |ms|
      ensures ms[i].key != ms[j].key
    {
      FrontierAt(ps, i);
      FrontierAt(ps, j);
      ActorsDiffer(ps[i].actor, ps[j].actor);
    }
  }

  lemma {:induction false} FrontierAt(ps: seq<Pair>, i: nat)
    requires i < |ps|
    ensures FrontierMembers(ps)[i] == FrontierMember(ps[i])
  {
    if i < |ps| - 1 { FrontierAt(ps[..|ps| - 1], i); }
  }

  lemma {:induction false} ActorsDiffer(a: ActorId, b: ActorId)
    requires a != b
    ensures Hex(a, 32) != Hex(b, 32)
  {
    Widths16();
    HexReads(a, 32);
    HexReads(b, 32);
    hide Hex, ReadHex, Power16;
  }

  lemma {:induction false} IsFrontierTree(ps: seq<Pair>, room: nat)
    requires forall i, j :: 0 <= i < j < |ps| ==> ps[i].actor < ps[j].actor
    ensures Is(Object(FrontierMembers(ps)), 1 + |ps|, room + 1, true)
  {
    FrontierAre(ps, room);
    FrontierKeys(ps);
    hide MembersAre, KeysDiffer;
    IsObject(FrontierMembers(ps), |ps|, room, true);
  }

  lemma {:induction false} IsTag(text: seq<Byte>, room: nat)
    requires text == TAG_EDIT || text == TAG_UNDO
    ensures Is(String(text), 1, room, true) && Size(String(text)) == 3
  {
    LiteralIsUnescaped(text);
    hide EscapeAll;
  }

  lemma {:induction false} KeysArePlain()
    ensures AllLiteral(KEY_T) && AllLiteral(KEY_TS) && AllLiteral(KEY_V) && AllLiteral(KEY_A) && AllLiteral(KEY_C)
    ensures AllLiteral(KEY_DID) && AllLiteral(KEY_R) && AllLiteral(KEY_NT) && AllLiteral(KEY_IF) && AllLiteral(KEY_DR)
    ensures AllLiteral(KEY_MARKER) && AllLiteral(KEY_O) && AllLiteral(KEY_K) && AllLiteral(KEY_N) && AllLiteral(KEY_M)
    ensures AllLiteral(KEY_P) && AllLiteral(KEY_S)
  {
  }

  /** The header's members, whatever the operation. */
  lemma {:induction false} HeadAre(o: WireOperation, room: nat)
    requires Reserved(o) <= o.timestamp.counter
    requires forall i, j :: 0 <= i < j < |o.version| ==> o.version[i].actor < o.version[j].actor
    ensures MembersAre(HeadMembers(o), 8 + |o.version|, room + 1, true)
  {
    var tag := if o.WireEdit? then TAG_EDIT else TAG_UNDO;
    NoneAre(room + 1);
    IsTag(tag, room + 1);
    IsIdentity(o.timestamp, room);
    IsFrontierTree(o.version, room);
    IsAllocation(o.timestamp, Reserved(o), room);
    KeysArePlain();
    hide MembersAre, Is, IdentityTree, FrontierMembers, AllocationTree, Reserved, AllLiteral, Size;
    var a := [Member(KEY_T, String(tag))];
    assert a == [] + a;
    OneMoreMember([], 0, KEY_T, String(tag), 1, room + 1, true);
    var b := a + [Member(KEY_TS, IdentityTree(o.timestamp))];
    OneMoreMember(a, 1, KEY_TS, IdentityTree(o.timestamp), 3, room + 1, true);
    var c := b + [Member(KEY_V, Object(FrontierMembers(o.version)))];
    OneMoreMember(b, 4, KEY_V, Object(FrontierMembers(o.version)), 1 + |o.version|, room + 1, true);
    OneMoreMember(c, 5 + |o.version|, KEY_A, AllocationTree(o.timestamp, Reserved(o)), 3, room + 1, true);
    assert HeadMembers(o) == c + [Member(KEY_A, AllocationTree(o.timestamp, Reserved(o)))];
  }

  // ---- Undos -------------------------------------------------------------

  lemma {:induction false} UndoIs(o: WireOperation)
    requires o.WireUndo? && Reserved(o) <= o.timestamp.counter
    requires forall i, j :: 0 <= i < j < |o.version| ==> o.version[i].actor < o.version[j].actor
    ensures Is(Object(Members(o)), 10 + |o.version| + 5 * |o.counts|, 5, true)
  {
    hide *;
    HeadAre(o, 3);
    CountsAre(o.counts);
    KeysArePlain();
    UndoTreeIs(o);
    var n := 5 * |o.counts|;
    OneMoreMember(HeadMembers(o), 8 + |o.version|, KEY_C, Array(Trees(o.counts, CountedTree)), 1 + n, 4, true);
    IsObject(Members(o), 9 + |o.version| + n, 4, true);
  }

  lemma {:induction false} UndoTreeIs(o: WireOperation)
    requires o.WireUndo? && Reserved(o) <= o.timestamp.counter
    ensures KeysDiffer(Members(o)) && |KEY_C| == 1
    ensures Members(o) == HeadMembers(o) + [Member(KEY_C, Array(Trees(o.counts, CountedTree)))]
  {
    UndoKeys(o);
    hide HeadMembers, CountedTree, Trees, Reserved, KeysDiffer;
  }

  lemma {:induction false} CountsAre(cs: seq<Counted>)
    ensures Is(Array(Trees(cs, CountedTree)), 1 + 5 * |cs|, 4, true)
  {
    forall i | 0 <= i < |cs|
      ensures Is(CountedTree(cs[i]), 5, 3, true)
    {
      IsCounted(cs[i], 1);
    }
    hide Is, CountedTree, AllAre, Trees;
    TreesAre(cs, CountedTree, 5, 3, true);
    IsArray(Trees(cs, CountedTree), 5 * |cs|, 3, true);
  }

  lemma {:induction false} UndoKeys(o: WireOperation)
    requires o.WireUndo? && Reserved(o) <= o.timestamp.counter
    ensures KeysDiffer(Members(o))
  {
    hide IdentityTree, FrontierMembers, AllocationTree, Trees, Reserved;
  }

  lemma {:induction false} MoreRoom(v: Value, room: nat, more: nat)
    requires Sound(v, room) && room <= more
    ensures Sound(v, more)
    decreases v, 1
  {
    hide AllSound, MembersSound, KeysDiffer;
    match v
    case Array(elements) => MoreRoomIn(elements, room - 1, more - 1);
    case Object(members) => MoreRoomOf(members, room - 1, more - 1);
    case _ =>
  }

  lemma {:induction false} MoreRoomIn(vs: seq<Value>, room: nat, more: nat)
    requires AllSound(vs, room) && room <= more
    ensures AllSound(vs, more)
    decreases vs, 0
  {
    hide Sound;
    if vs != [] {
      MoreRoom(vs[0], room, more);
      MoreRoomIn(vs[1..], room, more);
    }
  }

  lemma {:induction false} MoreRoomOf(ms: seq<Member>, room: nat, more: nat)
    requires MembersSound(ms, room) && room <= more
    ensures MembersSound(ms, more)
    decreases ms, 0
  {
    hide Sound;
    if ms != [] {
      MoreRoom(ms[0].value, room, more);
      MoreRoomOf(ms[1..], room, more);
    }
  }

  /** What a tree of so many values spends, and what frame it makes. */
  lemma {:induction false} TreeFits(o: WireOperation, n: nat, short: bool)
    requires Reserved(o) <= o.timestamp.counter && Is(Object(Members(o)), n, 5, short)
    ensures Spend(Object(Members(o)), 0, MAX_ELEMENTS).Some? <==> n <= MAX_ELEMENTS
    ensures |Frame(o)| == 9 + Size(Object(Members(o)))
    ensures short && n <= MAX_ELEMENTS ==> |Frame(o)| <= FRAME_LIMIT
  {
    hide Members, Sound, Values, Short, Size, Spend, Print, Reserved;
    var v := Object(Members(o));
    MoreRoom(v, 5, MAX_DEPTH);
    SpendIsCount(v, 0, MAX_ELEMENTS);
    PrintSize(v);
    if short { SizeIsBounded(v); }
    HeaderSize(o);
  }

  lemma {:induction false} HeaderSize(o: WireOperation)
    ensures |HeaderOf(o)| == 9
  {
  }

  /** An undo that is in order can be encoded exactly if it does not have too many
      values, which leaves room for fewer than 20,000 targets. */
  lemma {:induction false} UndoIsEncodable(o: WireOperation)
    requires o.WireUndo? && InOrder(o) && Canonical(o.version)
    ensures Encodable(o) <==> 10 + |o.version| + 5 * |o.counts| <= MAX_ELEMENTS
  {
    InOrderReserves(o);
    UndoIs(o);
    hide Is, Members, InOrder, Spend, Frame, Reserved;
    TreeFits(o, 10 + |o.version| + 5 * |o.counts|, true);
  }

  lemma {:induction false} InOrderReserves(o: WireOperation)
    requires InOrder(o)
    ensures Reserved(o) <= o.timestamp.counter
  {
  }

  // ---- Edits -------------------------------------------------------------

  function LinkValues(link: Link): nat {
    4 + (if link.parent.Some? then 2 else 0) + if link.rightOrigin.Some? then 2 else 0
  }

  function LinkSize(link: Link): nat {
    34 + (if link.parent.Some? then 55 else 2) + if link.rightOrigin.Some? then 55 else 2
  }

  function RunValues(r: WireRun): nat {
    6 + LinkValues(r.link) + if r.marker then 1 else 0
  }

  function RunsValues(rs: seq<WireRun>): nat {
    if rs == [] then 0 else RunsValues(rs[..|rs| - 1]) + RunValues(rs[|rs| - 1])
  }

  /** How many values an edit's frame has. */
  function EditValues(o: WireOperation): nat
    requires o.WireEdit?
  {
    16 + |o.version| + (if o.markerEdit then 1 else 0) + 3 * |o.ranges| + |o.newText| + RunsValues(o.inserted) + 5 * |o.deleted|
  }

  lemma {:induction false} SizeMore(ms: seq<Member>, key: seq<Byte>, v: Value)
    requires AllLiteral(key)
    ensures SizeOf(ms + [Member(key, v)]) == SizeOf(ms) + (if ms == [] then 0 else 1) + |key| + 3 + Size(v)
    decreases |ms|
  {
    LiteralIsUnescaped(key);
    hide Size, EscapeAll;
    var x := Member(key, v);
    if ms == [] {
      assert ms + [x] == [x] && [x][1..] == [];
    } else {
      assert (ms + [x])[1..] == ms[1..] + [x];
      SizeMore(ms[1..], key, v);
    }
  }

  /** One more member: how many values it adds, and how many bytes. */
  lemma {:induction false} Grow(ms: seq<Member>, m: nat, key: seq<Byte>, v: Value, n: nat, room: nat)
    requires MembersAre(ms, m, room, false) && Is(v, n, room, false) && |key| <= 32 && AllLiteral(key)
    ensures MembersAre(ms + [Member(key, v)], m + n, room, false)
    ensures SizeOf(ms + [Member(key, v)]) == SizeOf(ms) + (if ms == [] then 0 else 1) + |key| + 3 + Size(v)
  {
    hide *;
    OneMoreMember(ms, m, key, v, n, room, false);
    SizeMore(ms, key, v);
  }

  lemma {:induction false} Weaker(v: Value, n: nat, room: nat, more: nat)
    requires Is(v, n, room, true) && room <= more
    ensures Is(v, n, more, false)
  {
    MoreRoom(v, room, more);
    hide Values, Sound, Short;
  }

  lemma {:induction false} NoMembers(room: nat)
    ensures MembersAre([], 0, room, false) && SizeOf([]) == 0
  {
  }

  /** An object of three members, and one of four. */
  lemma {:induction false} IsTriple(k1: seq<Byte>, v1: Value, n1: nat, k2: seq<Byte>, v2: Value, n2: nat,
                                    k3: seq<Byte>, v3: Value, n3: nat, room: nat)
    requires Is(v1, n1, room, false) && Is(v2, n2, room, false) && Is(v3, n3, room, false)
    requires |k1| <= 32 && |k2| <= 32 && |k3| <= 32 && AllLiteral(k1) && AllLiteral(k2) && AllLiteral(k3)
    ensures var ms := [Member(k1, v1), Member(k2, v2), Member(k3, v3)];
            MembersAre(ms, n1 + n2 + n3, room, false) && SizeOf(ms) == |k1| + |k2| + |k3| + 11 + Size(v1) + Size(v2) + Size(v3)
  {
    NoMembers(room);
    hide *;
    Grow([], 0, k1, v1, n1, room);
    var a, b := [Member(k1, v1)], [Member(k1, v1), Member(k2, v2)];
    assert [] + a == a;
    Grow(a, n1, k2, v2, n2, room);
    assert a + [Member(k2, v2)] == b;
    Grow(b, n1 + n2, k3, v3, n3, room);
    assert b + [Member(k3, v3)] == [Member(k1, v1), Member(k2, v2), Member(k3, v3)];
  }

  lemma {:induction false} ObjectSize(ms: seq<Member>)
    ensures Size(Object(ms)) == 2 + SizeOf(ms)
  {
  }

  lemma {:induction false} LinkIs(link: Link)
    ensures Is(LinkTree(link), LinkValues(link), 2, false) && Size(LinkTree(link)) == LinkSize(link)
  {
    var side := if link.side.Left? then 0 else 1;
    var m, n := if link.parent.Some? then 3 else 1, if link.rightOrigin.Some? then 3 else 1;
    var p, s, r := OptionalTree(link.parent), NumberTree(side), OptionalTree(link.rightOrigin);
    LinkParts(link, side);
    LinkNumbers(link);
    KeysArePlain();
    LinkTreeIs(link);
    hide *;
    IsTriple(KEY_P, p, m, KEY_S, s, 1, KEY_R, r, n, 1);
    var ms := [Member(KEY_P, p), Member(KEY_S, s), Member(KEY_R, r)];
    LinkKeys(p, s, r);
    IsObject(ms, m + 1 + n, 1, false);
    ObjectSize(ms);
  }

  lemma {:induction false} LinkNumbers(link: Link)
    ensures LinkValues(link) == 4 + (if link.parent.Some? then 2 else 0) + if link.rightOrigin.Some? then 2 else 0
    ensures LinkSize(link) == 34 + (if link.parent.Some? then 55 else 2) + if link.rightOrigin.Some? then 55 else 2
    ensures |KEY_P| == |KEY_S| == |KEY_R| == 1
  {
  }

  lemma {:induction false} LinkTreeIs(link: Link)
    ensures LinkTree(link) == Object([Member(KEY_P, OptionalTree(link.parent)),
                                      Member(KEY_S, NumberTree(if link.side.Left? then 0 else 1)),
                                      Member(KEY_R, OptionalTree(link.rightOrigin))])
  {
    hide OptionalTree, NumberTree;
  }

  lemma {:induction false} LinkKeys(p: Value, s: Value, r: Value)
    ensures KeysDiffer([Member(KEY_P, p), Member(KEY_S, s), Member(KEY_R, r)])
  {
  }

  lemma {:induction false} LinkParts(link: Link, side: nat)
    ensures var m, n := if link.parent.Some? then 3 else 1, if link.rightOrigin.Some? then 3 else 1;
            && Is(OptionalTree(link.parent), m, 1, false) && Is(OptionalTree(link.rightOrigin), n, 1, false)
            && Is(NumberTree(side), 1, 1, false) && Size(NumberTree(side)) == 18
            && Size(OptionalTree(link.parent)) == (if link.parent.Some? then 55 else 2)
            && Size(OptionalTree(link.rightOrigin)) == if link.rightOrigin.Some? then 55 else 2
  {
    IsOptional(link.parent, 0);
    IsOptional(link.rightOrigin, 0);
    IsNumber(side, 1);
    hide Is, OptionalTree, NumberTree, Size;
    Weaker(OptionalTree(link.parent), if link.parent.Some? then 3 else 1, 1, 1);
    Weaker(OptionalTree(link.rightOrigin), if link.rightOrigin.Some? then 3 else 1, 1, 1);
    Weaker(NumberTree(side), 1, 1, 1);
  }

  lemma {:induction false} IsText(text: seq<Byte>, room: nat)
    requires |text| <= MAX_TEXT
    ensures Is(String(text), 1, room, false) && Size(String(text)) == |EscapeAll(text)| + 2
  {
  }

  lemma {:induction false} RunParts(r: WireRun)
    requires |r.content| <= MAX_TEXT
    ensures Is(IdentityTree(r.origin), 3, 2, false) && Size(IdentityTree(r.origin)) == 55
    ensures Is(LinkTree(r.link), LinkValues(r.link), 2, false) && Size(LinkTree(r.link)) == LinkSize(r.link)
    ensures Is(String(r.content), 1, 2, false) && Size(String(r.content)) == |EscapeAll(r.content)| + 2
    ensures Is(NumberTree(r.length), 1, 2, false) && Size(NumberTree(r.length)) == 18
    ensures Is(NumberTree(1), 1, 2, false)
  {
    IsIdentity(r.origin, 1);
    LinkIs(r.link);
    IsText(r.content, 2);
    IsNumber(r.length, 2);
    IsNumber(1, 2);
    hide Is, IdentityTree, LinkTree, NumberTree, Size, LinkValues, LinkSize, EscapeAll;
    Weaker(IdentityTree(r.origin), 3, 2, 2);
    Weaker(NumberTree(r.length), 1, 2, 2);
    Weaker(NumberTree(1), 1, 2, 2);
  }

  lemma {:induction false} RunIs(r: WireRun)
    requires |r.content| <= MAX_TEXT
    ensures Is(RunTree(r), RunValues(r), 3, false)
    ensures !r.marker ==> Size(RunTree(r)) == 96 + LinkSize(r.link) + |EscapeAll(r.content)|
  {
    RunParts(r);
    KeysArePlain();
    var o, k, c, n := IdentityTree(r.origin), LinkTree(r.link), String(r.content), NumberTree(r.length);
    var m := LinkValues(r.link);
    RunTreeIs(r);
    hide Is, MembersAre, IdentityTree, LinkTree, NumberTree, AllLiteral, SizeOf, EscapeAll, LinkValues, LinkSize, Size, KeysDiffer, RunTree;
    IsTriple(KEY_O, o, 3, KEY_K, k, m, KEY_C, c, 1, 2);
    var three := [Member(KEY_O, o), Member(KEY_K, k), Member(KEY_C, c)];
    Grow(three, 4 + m, KEY_N, n, 1, 2);
    var ms := three + [Member(KEY_N, n)];
    RunKeys(o, k, c, n);
    if r.marker {
      Grow(ms, 5 + m, KEY_M, NumberTree(1), 1, 2);
      IsObject(ms + [Member(KEY_M, NumberTree(1))], 6 + m, 2, false);
    } else {
      IsObject(ms, 5 + m, 2, false);
      ObjectSize(ms);
    }
  }

  lemma {:induction false} RunTreeIs(r: WireRun)
    ensures var three := [Member(KEY_O, IdentityTree(r.origin)), Member(KEY_K, LinkTree(r.link)), Member(KEY_C, String(r.content))];
            var ms := three + [Member(KEY_N, NumberTree(r.length))];
            RunTree(r) == Object(if r.marker then ms + [Member(KEY_M, NumberTree(1))] else ms)
  {
    hide IdentityTree, LinkTree, NumberTree;
  }

  lemma {:induction false} RunKeys(o: Value, k: Value, c: Value, n: Value)
    ensures var ms := [Member(KEY_O, o), Member(KEY_K, k), Member(KEY_C, c)] + [Member(KEY_N, n)];
            KeysDiffer(ms) && KeysDiffer(ms + [Member(KEY_M, NumberTree(1))])
  {
    hide NumberTree;
  }

  lemma {:induction false} RunsAre(rs: seq<WireRun>)
    requires forall i :: 0 <= i < |rs| ==> |rs[i].content| <= MAX_TEXT
    ensures AllAre(Trees(rs, RunTree), RunsValues(rs), 3, false)
  {
    if rs == [] {
      NoneAre(3);
      NotShort([], 3, false);
    } else {
      var init, r := rs[..|rs| - 1], rs[|rs| - 1];
      RunsAre(init);
      RunIs(r);
      hide Is, AllAre, RunTree, RunValues;
      OneMore(Trees(init, RunTree), RunsValues(init), RunTree(r), RunValues(r), 3, false);
    }
  }

  lemma {:induction false} SpansAre(xs: seq<Span>)
    ensures Is(Array(Trees(xs, SpanTree)), 1 + 3 * |xs|, 4, false)
  {
    forall i | 0 <= i < |xs|
      ensures Is(SpanTree(xs[i]), 3, 3, false)
    {
      IsSpan(xs[i], 0);
      Weaker(SpanTree(xs[i]), 3, 1, 3);
    }
    hide Is, SpanTree, AllAre, Trees;
    TreesAre(xs, SpanTree, 3, 3, false);
    IsArray(Trees(xs, SpanTree), 3 * |xs|, 3, false);
  }

  lemma {:induction false} TextsAre(xs: seq<seq<Byte>>)
    requires forall i :: 0 <= i < |xs| ==> |xs[i]| <= MAX_TEXT
    ensures Is(Array(Trees(xs, TextTree)), 1 + |xs|, 4, false)
  {
    forall i | 0 <= i < |xs|
      ensures Is(TextTree(xs[i]), 1, 3, false)
    {
      IsText(xs[i], 3);
    }
    hide Is, TextTree, AllAre, Trees;
    TreesAre(xs, TextTree, 1, 3, false);
    IsArray(Trees(xs, TextTree), |xs|, 3, false);
  }

  lemma {:induction false} DeletedAre(cs: seq<Counted>)
    ensures Is(Array(Trees(cs, CountedTree)), 1 + 5 * |cs|, 4, false)
  {
    CountsAre(cs);
    hide Is, CountedTree, Trees;
    Weaker(Array(Trees(cs, CountedTree)), 1 + 5 * |cs|, 4, 4);
  }

  lemma {:induction false} RunsTreeIs(rs: seq<WireRun>)
    requires forall i :: 0 <= i < |rs| ==> |rs[i].content| <= MAX_TEXT
    ensures Is(Array(Trees(rs, RunTree)), 1 + RunsValues(rs), 4, false)
  {
    RunsAre(rs);
    hide Is, AllAre, RunTree, Trees, RunsValues;
    IsArray(Trees(rs, RunTree), RunsValues(rs), 3, false);
  }

  /** The members before the lists of an edit. */
  function Opening(o: WireOperation): seq<Member>
    requires o.WireEdit? && Reserved(o) <= o.timestamp.counter
  {
    HeadMembers(o) + MarkerMembers(o)
  }

  lemma {:induction false} OpeningIs(o: WireOperation)
    requires o.WireEdit? && Reserved(o) <= o.timestamp.counter
    requires forall i, j :: 0 <= i < j < |o.version| ==> o.version[i].actor < o.version[j].actor
    ensures MembersAre(Opening(o), 8 + |o.version| + (if o.markerEdit then 1 else 0), 4, false)
  {
    HeadAre(o, 3);
    MembersWeaker(HeadMembers(o), 8 + |o.version|, 4);
    IsNumber(1, 4);
    Weaker(NumberTree(1), 1, 4, 4);
    KeysArePlain();
    hide MembersAre, HeadMembers, Is, NumberTree, AllLiteral, Reserved;
    if o.markerEdit {
      OneMoreMember(HeadMembers(o), 8 + |o.version|, KEY_MARKER, NumberTree(1), 1, 4, false);
    } else {
      assert HeadMembers(o) + [] == HeadMembers(o);
    }
  }

  lemma {:induction false} MembersWeaker(ms: seq<Member>, n: nat, room: nat)
    requires MembersAre(ms, n, room, true)
    ensures MembersAre(ms, n, room, false)
  {
    hide ValuesOf, MembersSound, MembersShort;
  }

  lemma {:induction false} ListKeys()
    ensures |KEY_DID| == 3 && |KEY_R| == 1 && |KEY_NT| == |KEY_IF| == |KEY_DR| == 2
  {
  }

  /** The five lists of an edit, one after the other. */
  lemma {:induction false} ListsAre(ms: seq<Member>, m: nat, did: Value, r: Value, nr: nat, nt: Value, nn: nat, runs: Value, ni: nat, dr: Value, nd: nat)
    requires ms != [] && MembersAre(ms, m, 4, false) && Is(did, 3, 4, false) && Is(r, nr, 4, false) && Is(nt, nn, 4, false)
    requires Is(runs, ni, 4, false) && Is(dr, nd, 4, false)
    ensures var all := ms + [Member(KEY_DID, did), Member(KEY_R, r), Member(KEY_NT, nt), Member(KEY_IF, runs), Member(KEY_DR, dr)];
            && MembersAre(all, m + 3 + nr + nn + ni + nd, 4, false)
            && SizeOf(all) == SizeOf(ms) + 30 + Size(did) + Size(r) + Size(nt) + Size(runs) + Size(dr)
  {
    KeysArePlain();
    ListKeys();
    hide *;
    Grow(ms, m, KEY_DID, did, 3, 4);
    var a := ms + [Member(KEY_DID, did)];
    Grow(a, m + 3, KEY_R, r, nr, 4);
    var b := a + [Member(KEY_R, r)];
    Grow(b, m + 3 + nr, KEY_NT, nt, nn, 4);
    var c := b + [Member(KEY_NT, nt)];
    Grow(c, m + 3 + nr + nn, KEY_IF, runs, ni, 4);
    var d := c + [Member(KEY_IF, runs)];
    Grow(d, m + 3 + nr + nn + ni, KEY_DR, dr, nd, 4);
    assert ms + [Member(KEY_DID, did), Member(KEY_R, r), Member(KEY_NT, nt), Member(KEY_IF, runs), Member(KEY_DR, dr)]
           == d + [Member(KEY_DR, dr)];
  }

  lemma {:induction false} EditTreeIs(o: WireOperation)
    requires o.WireEdit? && Reserved(o) <= o.timestamp.counter
    ensures Opening(o) != [] && KeysDiffer(Members(o))
    ensures Members(o) == Opening(o) + [Member(KEY_DID, IdentityTree(o.deletionId)),
                                        Member(KEY_R, Array(Trees(o.ranges, SpanTree))),
                                        Member(KEY_NT, Array(Trees(o.newText, TextTree))),
                                        Member(KEY_IF, Array(Trees(o.inserted, RunTree))),
                                        Member(KEY_DR, Array(Trees(o.deleted, CountedTree)))]
  {
    hide IdentityTree, FrontierMembers, AllocationTree, Trees, Reserved, NumberTree;
  }

  /** The tree of an edit: its values, and its bytes but for the lists. */
  lemma {:induction false} EditIs(o: WireOperation)
    requires o.WireEdit? && InOrder(o) && Canonical(o.version)
    ensures Reserved(o) <= o.timestamp.counter && Is(Object(Members(o)), EditValues(o), 5, false)
    ensures Size(Object(Members(o)))
            == 87 + SizeOf(Opening(o)) + Size(Array(Trees(o.ranges, SpanTree))) + Size(Array(Trees(o.newText, TextTree)))
               + Size(Array(Trees(o.inserted, RunTree))) + Size(Array(Trees(o.deleted, CountedTree)))
  {
    hide *;
    InOrderReserves(o);
    InOrderTexts(o);
    OrderedPairs(o.version);
    OpeningIs(o);
    DeletionIdIs(o.deletionId);
    SpansAre(o.ranges);
    TextsAre(o.newText);
    RunsTreeIs(o.inserted);
    DeletedAre(o.deleted);
    EditTreeIs(o);
    var m := 8 + |o.version| + if o.markerEdit then 1 else 0;
    ListsAre(Opening(o), m, IdentityTree(o.deletionId), Array(Trees(o.ranges, SpanTree)), 1 + 3 * |o.ranges|,
             Array(Trees(o.newText, TextTree)), 1 + |o.newText|, Array(Trees(o.inserted, RunTree)), 1 + RunsValues(o.inserted),
             Array(Trees(o.deleted, CountedTree)), 1 + 5 * |o.deleted|);
    EditValuesAre(o);
    IsObject(Members(o), EditValues(o) - 1, 4, false);
    ObjectSize(Members(o));
  }

  lemma {:induction false} EditValuesAre(o: WireOperation)
    requires o.WireEdit?
    ensures EditValues(o) == 16 + |o.version| + (if o.markerEdit then 1 else 0) + 3 * |o.ranges| + |o.newText| + RunsValues(o.inserted)
                             + 5 * |o.deleted|
  {
  }

  lemma {:induction false} OrderedPairs(ps: seq<Pair>)
    requires Canonical(ps)
    ensures forall i, j :: 0 <= i < j < |ps| ==> ps[i].actor < ps[j].actor
  {
  }

  lemma {:induction false} DeletionIdIs(id: Identity)
    ensures Is(IdentityTree(id), 3, 4, false) && Size(IdentityTree(id)) == 55
  {
    IsIdentity(id, 1);
    hide Is, IdentityTree, Size;
    Weaker(IdentityTree(id), 3, 2, 4);
  }

  lemma {:induction false} InOrderTexts(o: WireOperation)
    requires o.WireEdit? && InOrder(o)
    ensures forall i :: 0 <= i < |o.newText| ==> |o.newText[i]| <= MAX_TEXT
    ensures forall i :: 0 <= i < |o.inserted| ==> |o.inserted[i].content| <= MAX_TEXT
  {
    hide Allocates, CountsIssuable, FrontierFits;
  }

  /** An edit that is in order can be encoded exactly if its frame has neither too
      many values nor too many bytes. */
  lemma {:induction false} EditIsEncodable(o: WireOperation)
    requires o.WireEdit? && InOrder(o) && Canonical(o.version)
    ensures Reserved(o) <= o.timestamp.counter
    ensures Encodable(o) <==> EditValues(o) <= MAX_ELEMENTS && |Frame(o)| <= FRAME_LIMIT
  {
    EditIs(o);
    hide Is, Members, InOrder, Spend, Frame, Reserved, EditValues;
    TreeFits(o, EditValues(o), false);
  }

  // ---- Insertions --------------------------------------------------------

  function FrontierSize(k: nat): nat {
    if k == 0 then 2 else 1 + 54 * k
  }

  lemma {:induction false} FrontierTakes(ps: seq<Pair>)
    ensures SizeOf(FrontierMembers(ps)) == (if ps == [] then 0 else 54 * |ps| - 1)
  {
    if ps != [] {
      var init, p := ps[..|ps| - 1], ps[|ps| - 1];
      FrontierTakes(init);
      IsNumber(p.counter, 0);
      HexIsLiteral(p.actor, 32);
      hide SizeOf, Hex, NumberTree, Size;
      SizeMore(FrontierMembers(init), Hex(p.actor, 32), NumberTree(p.counter));
    }
  }

  lemma {:induction false} FrontierTreeSize(ps: seq<Pair>)
    ensures Size(Object(FrontierMembers(ps))) == FrontierSize(|ps|)
  {
    FrontierTakes(ps);
    hide FrontierMembers, SizeOf;
  }

  lemma {:induction false} HeadKeys()
    ensures |KEY_T| == |KEY_V| == |KEY_A| == 1 && |KEY_TS| == 2
  {
  }

  lemma {:induction false} HeadSize(o: WireOperation)
    requires Reserved(o) <= o.timestamp.counter
    ensures SizeOf(HeadMembers(o)) == 117 + FrontierSize(|o.version|)
  {
    var tag := if o.WireEdit? then TAG_EDIT else TAG_UNDO;
    IsTag(tag, 1);
    IsIdentity(o.timestamp, 1);
    FrontierTreeSize(o.version);
    IsAllocation(o.timestamp, Reserved(o), 1);
    KeysArePlain();
    HeadKeys();
    NoMembers(1);
    HeadIs(o);
    hide *;
    var t, ts, v, al := String(tag), IdentityTree(o.timestamp), Object(FrontierMembers(o.version)), AllocationTree(o.timestamp, Reserved(o));
    SizeMore([], KEY_T, t);
    var a := [Member(KEY_T, t)];
    assert [] + a == a;
    SizeMore(a, KEY_TS, ts);
    var b := a + [Member(KEY_TS, ts)];
    SizeMore(b, KEY_V, v);
    var c := b + [Member(KEY_V, v)];
    SizeMore(c, KEY_A, al);
    assert c + [Member(KEY_A, al)] == [Member(KEY_T, t), Member(KEY_TS, ts), Member(KEY_V, v), Member(KEY_A, al)];
  }

  lemma {:induction false} HeadIs(o: WireOperation)
    requires Reserved(o) <= o.timestamp.counter
    ensures HeadMembers(o) == [Member(KEY_T, String(if o.WireEdit? then TAG_EDIT else TAG_UNDO)),
                               Member(KEY_TS, IdentityTree(o.timestamp)),
                               Member(KEY_V, Object(FrontierMembers(o.version))),
                               Member(KEY_A, AllocationTree(o.timestamp, Reserved(o)))]
  {
    hide IdentityTree, FrontierMembers, AllocationTree, Reserved;
  }

  /** One text at one place, and nothing deleted. */
  predicate IsInsertion(o: WireOperation) {
    && o.WireEdit? && !o.markerEdit && |o.ranges| == 1 && |o.newText| == 1 && |o.inserted| == 1 && o.deleted == []
    && o.newText[0] == o.inserted[0].content && !o.inserted[0].marker
  }

  lemma {:induction false} OneTree<T>(xs: seq<T>, f: T -> Value)
    requires |xs| == 1
    ensures Trees(xs, f) == [f(xs[0])]
  {
    assert Trees(xs[..0], f) == [];
  }

  lemma {:induction false} SizeOfOne(v: Value)
    ensures Size(Array([v])) == 2 + Size(v) && Size(Array([])) == 2
  {
    hide Size;
    assert [v][1..] == [];
    assert SizeIn([]) == 0 && SizeIn([v]) == Size(v);
    ArraySize([v]);
    ArraySize([]);
  }

  lemma {:induction false} ArraySize(vs: seq<Value>)
    ensures Size(Array(vs)) == 2 + SizeIn(vs)
  {
  }

  lemma {:induction false} SpanSize(s: Span)
    ensures Size(SpanTree(s)) == 39
  {
    IsNumber(s.start, 0);
    IsNumber(s.end, 0);
    hide Is, NumberTree, Size;
    ArePair(NumberTree(s.start), 1, NumberTree(s.end), 1, 0, true);
  }

  lemma {:induction false} InsertionLists(o: WireOperation)
    requires IsInsertion(o) && |o.newText[0]| <= MAX_TEXT
    ensures var e := |EscapeAll(o.newText[0])|;
            && Size(Array(Trees(o.ranges, SpanTree))) == 41 && Size(Array(Trees(o.newText, TextTree))) == 4 + e
            && Size(Array(Trees(o.inserted, RunTree))) == 98 + LinkSize(o.inserted[0].link) + e
            && Size(Array(Trees(o.deleted, CountedTree))) == 2
  {
    OneTree(o.ranges, SpanTree);
    OneTree(o.newText, TextTree);
    OneTree(o.inserted, RunTree);
    SpanSize(o.ranges[0]);
    IsText(o.newText[0], 1);
    RunIs(o.inserted[0]);
    hide Is, SpanTree, RunTree, Size, EscapeAll, LinkSize, RunValues;
    SizeOfOne(SpanTree(o.ranges[0]));
    SizeOfOne(TextTree(o.newText[0]));
    SizeOfOne(RunTree(o.inserted[0]));
    assert Trees(o.deleted, CountedTree) == [];
  }

  /** The frame of an insertion carries its text twice. */
  lemma {:induction false} InsertionFrame(o: WireOperation)
    requires IsInsertion(o) && InOrder(o) && Canonical(o.version)
    ensures Reserved(o) <= o.timestamp.counter
    ensures |Frame(o)| == 358 + FrontierSize(|o.version|) + LinkSize(o.inserted[0].link) + 2 * |EscapeAll(o.newText[0])|
  {
    hide *;
    InsertionParts(o);
    InOrderTexts(o);
    EditIs(o);
    InsertionLists(o);
    HeadSize(o);
    TreeFits(o, EditValues(o), false);
  }

  lemma {:induction false} InsertionParts(o: WireOperation)
    requires IsInsertion(o)
    ensures o.WireEdit? && |o.ranges| == 1 && |o.newText| == 1 && |o.inserted| == 1 && o.deleted == [] && !o.inserted[0].marker
    ensures o.newText[0] == o.inserted[0].content
    ensures Reserved(o) <= o.timestamp.counter ==> Opening(o) == HeadMembers(o)
    ensures EditValues(o) <= 34 + |o.version|
  {
    hide HeadMembers, Reserved;
    if Reserved(o) <= o.timestamp.counter { assert HeadMembers(o) + [] == HeadMembers(o); }
    assert o.inserted[..0] == [];
    assert RunsValues(o.inserted) == RunsValues([]) + RunValues(o.inserted[0]);
  }

  /** An insertion that is in order can be encoded exactly if its text, escaped and
      taken twice, fits the frame. */
  lemma {:induction false} InsertionIsEncodable(o: WireOperation)
    requires IsInsertion(o) && InOrder(o) && Canonical(o.version)
    ensures Encodable(o) <==>
              358 + FrontierSize(|o.version|) + LinkSize(o.inserted[0].link) + 2 * |EscapeAll(o.newText[0])| <= FRAME_LIMIT
  {
    InsertionParts(o);
    InsertionFrame(o);
    EditIsEncodable(o);
    FewPairs(o);
    hide *;
  }

  lemma {:induction false} FewPairs(o: WireOperation)
    requires InOrder(o)
    ensures |o.version| <= 512 && 600 <= MAX_ELEMENTS
  {
    hide Allocates;
  }
}
