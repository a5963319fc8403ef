/** CTPT position tokens: what a frame holds, the reader and the writer, and the
    proof that valid positions and accepted byte strings are in bijection. */
module PositionTokens {
  import opened Ids
  import opened Bytes
  import opened Clock
  import opened VersionVectors

  const TOKEN_LIMIT: nat := 0x1_0000
  const MAX_ACTORS: nat := 512
  const MAX_SCOPE: nat := 256
  const MAGIC: seq<Byte> := [0x43, 0x54, 0x50, 0x54]

  type Word = w: nat | w < U64

  datatype PositionKind = TextBoundary | ListBoundary | ListElement | TextAttachment | TextMarker

  datatype Primitive = TextPrimitive | ListPrimitive

  datatype Affinity = LeftAffinity | RightAffinity

  datatype Referent = Preceding | Following

  datatype Scope = Scope(document: seq<Byte>, stream: seq<Byte>, epoch: Word, primitive: Primitive)

  /** `frontier` is the version vector's array; `selection` means something only
      on a text attachment. */
  datatype Position = Position(
    scope: Scope,
    kind: PositionKind,
    affinity: Affinity,
    frontier: seq<Pair>,
    left: Option<Identity>,
    right: Option<Identity>,
    referent: Option<Identity>,
    selection: Referent)

  datatype Error = Malformed | UnknownFormat | UnsupportedVersion | LimitExceeded | WrongPrimitive

  datatype Result<+T> = Ok(value: T) | Err(error: Error)

  predicate IsText(k: PositionKind) {
    k.TextBoundary? || k.TextAttachment? || k.TextMarker?
  }

  /** Kinds that name one element instead of the two fences of a boundary. */
  predicate NamesElement(k: PositionKind) {
    k.ListElement? || k.TextMarker?
  }

  function PrimitiveOf(k: PositionKind): Primitive {
    if IsText(k) then TextPrimitive else ListPrimitive
  }

  function CheckScope(s: Scope, expected: Primitive): Option<Error> {
    if s.document == [] || s.stream == [] || s.epoch == 0 then Some(Malformed)
    else if |s.document| > MAX_SCOPE || |s.stream| > MAX_SCOPE then Some(LimitExceeded)
    else if s.primitive != expected then Some(WrongPrimitive)
    else None
  }

  predicate Sorted(ps: seq<Pair>) {
    forall i, j :: 0 <= i < j < |ps| ==> ps[i].actor < ps[j].actor
  }

  predicate AllIssuable(ps: seq<Pair>) {
    forall i :: 0 <= i < |ps| ==> Issuable(Identity(ps[i].actor, ps[i].counter))
  }

  /** The frontier has seen this item. */
  predicate Covered(ps: seq<Pair>, id: Identity) {
    id.counter == 0 || exists i :: 0 <= i < |ps| && ps[i].actor == id.actor && ps[i].counter >= id.counter
  }

  predicate ItemFits(ps: seq<Pair>, item: Option<Identity>) {
    item.Some? ==> Issuable(item.value) && Covered(ps, item.value)
  }

  function CheckPosition(p: Position): Option<Error> {
    var scope := CheckScope(p.scope, PrimitiveOf(p.kind));
    if scope.Some? then scope
    else if NamesElement(p.kind) && p.affinity != LeftAffinity then Some(Malformed)
    else if |p.frontier| > MAX_ACTORS then Some(LimitExceeded)
    else if !AllIssuable(p.frontier) then Some(Malformed)
    else if !ItemFits(p.frontier, p.left) || !ItemFits(p.frontier, p.right) || !ItemFits(p.frontier, p.referent) then
      Some(Malformed)
    else if NamesElement(p.kind) then
      if p.referent.None? || p.left.Some? || p.right.Some? then Some(Malformed) else None
    else if p.referent.Some? || (p.left.Some? && p.left == p.right) then Some(Malformed)
    else if p.kind.TextAttachment? && (if p.selection.Preceding? then p.left else p.right).None? then Some(Malformed)
    else None
  }

  /** A position the engine may hold: the version vector keeps its array
      canonical, and everything else is checked. */
  ghost predicate Valid(p: Position) {
    Canonical(p.frontier) && CheckPosition(p).None?
  }

  /** The position with the field a frame does not carry at its default. */
  function Normal(p: Position): Position {
    if p.kind.TextAttachment? then p else p.(selection := Following)
  }

  // ---- The frame ----

  function KindCode(k: PositionKind): nat {
    match k
    case TextBoundary => 1
    case ListBoundary => 2
    case ListElement => 3
    case TextAttachment => 4
    case TextMarker => 5
  }

  function KindOf(code: nat): PositionKind
    requires 1 <= code <= 5
  {
    if code == 1 then TextBoundary
    else if code == 2 then ListBoundary
    else if code == 3 then ListElement
    else if code == 4 then TextAttachment
    else TextMarker
  }

  function VersionOf(k: PositionKind): nat {
    if k.TextMarker? then 2 else 1
  }

  function PutText(s: seq<Byte>): seq<Byte> {
    BigEndian(|s|, 2) + s
  }

  function PutIdentity(id: Identity): seq<Byte> {
    BigEndian(id.actor, 16) + BigEndian(id.counter, 8)
  }

  function PutFence(item: Option<Identity>): seq<Byte> {
    if item.None? then BigEndian(0, 1) else BigEndian(1, 1) + PutIdentity(item.value)
  }

  function PutPairs(ps: seq<Pair>): seq<Byte> {
    if ps == [] then [] else PutIdentity(Identity(ps[0].actor, ps[0].counter)) + PutPairs(ps[1..])
  }

  function FrontierPart(p: Position): seq<Byte> {
    BigEndian(|p.frontier|, 2) + PutPairs(p.frontier)
  }

  function AnchorPart(p: Position): seq<Byte>
    requires NamesElement(p.kind) ==> p.referent.Some?
  {
    if NamesElement(p.kind) then PutIdentity(p.referent.value) + FrontierPart(p)
    else PutFence(p.left) + (PutFence(p.right) + FrontierPart(p))
  }

  function SelectionPart(p: Position): seq<Byte>
    requires NamesElement(p.kind) ==> p.referent.Some?
  {
    if p.kind.TextAttachment? then BigEndian(if p.selection.Preceding? then 1 else 2, 1) + AnchorPart(p)
    else AnchorPart(p)
  }

  function ScopePart(p: Position): seq<Byte>
    requires NamesElement(p.kind) ==> p.referent.Some?
  {
    PutText(p.scope.document) + (PutText(p.scope.stream) + (BigEndian(p.scope.epoch, 8) + SelectionPart(p)))
  }

  function Body(p: Position): seq<Byte>
    requires NamesElement(p.kind) ==> p.referent.Some?
  {
    BigEndian(KindCode(p.kind), 1) + (BigEndian(if p.affinity.RightAffinity? then 1 else 0, 1) + ScopePart(p))
  }

  function Frame(p: Position): seq<Byte>
    requires NamesElement(p.kind) ==> p.referent.Some?
  {
    MAGIC + (BigEndian(VersionOf(p.kind), 2) + Body(p))
  }

  // ---- Reading fields ----

  function GetText(s: seq<Byte>): Parsed<seq<Byte>> {
    var (size, s) :- GetNumber(s, 2);
    if size == 0 || size > MAX_SCOPE || |s| < size then Fail else Got(s[..size], s[size..])
  }

  function GetIdentity(s: seq<Byte>): Parsed<Identity> {
    var (actor, s) :- GetNumber(s, 16);
    var (counter, s) :- GetNumber(s, 8);
    if actor < U128 && Issuable(Identity(actor, counter)) then Got(Identity(actor, counter), s) else Fail
  }

  function GetFence(s: seq<Byte>): Parsed<Option<Identity>> {
    var (tag, s) :- GetNumber(s, 1);
    if tag > 1 then Fail
    else if tag == 0 then Got(None, s)
    else
      var (id, s) :- GetIdentity(s);
      Got(Some(id), s)
  }

  /** `n` more pairs, each above the one before. */
  function GetPairs(n: nat, previous: Option<ActorId>, s: seq<Byte>): Parsed<seq<Pair>> {
    if n == 0 then Got([], s)
    else
      var (id, s) :- GetIdentity(s);
      if previous.Some? && previous.value >= id.actor then Fail
      else
        var (more, s) :- GetPairs(n - 1, Some(id.actor), s);
        Got([Pair(id.actor, id.counter)] + more, s)
  }

  function GetFrontier(s: seq<Byte>): Parsed<seq<Pair>> {
    var (count, s) :- GetNumber(s, 2);
    if count > MAX_ACTORS then Fail else GetPairs(count, None, s)
  }

  datatype Anchors = Anchors(left: Option<Identity>, right: Option<Identity>, referent: Option<Identity>)

  function GetAnchors(k: PositionKind, s: seq<Byte>): Parsed<Anchors> {
    if NamesElement(k) then
      var (id, s) :- GetIdentity(s);
      Got(Anchors(None, None, Some(id)), s)
    else
      var (left, s) :- GetFence(s);
      var (right, s) :- GetFence(s);
      Got(Anchors(left, right, None), s)
  }

  function GetSelection(k: PositionKind, s: seq<Byte>): Parsed<Referent> {
    if k.TextAttachment? then
      var (code, s) :- GetNumber(s, 1);
      if code == 1 then Got(Preceding, s) else if code == 2 then Got(Following, s) else Fail
    else Got(Following, s)
  }

  function GetScope(k: PositionKind, s: seq<Byte>): Parsed<Scope> {
    var (document, s) :- GetText(s);
    var (stream, s) :- GetText(s);
    var (epoch, s) :- GetNumber(s, 8);
    if epoch < U64 then Got(Scope(document, stream, epoch, PrimitiveOf(k)), s) else Fail
  }

  /** What the version, kind and affinity fields may be together. */
  predicate HeaderFits(version: nat, kind: nat, affinity: nat) {
    1 <= kind <= 5 && affinity <= 1 && (kind == 5 <==> version == 2) && ((kind == 3 || kind == 5) ==> affinity == 0)
  }

  function GetRest(k: PositionKind, affinity: nat, s: seq<Byte>): Parsed<Position> {
    var (scope, s) :- GetScope(k, s);
    var (selection, s) :- GetSelection(k, s);
    var (anchors, s) :- GetAnchors(k, s);
    var (frontier, s) :- GetFrontier(s);
    Got(Position(scope, k, if affinity == 1 then RightAffinity else LeftAffinity, frontier,
                 anchors.left, anchors.right, anchors.referent, selection), s)
  }

  function GetBody(version: nat, s: seq<Byte>): Parsed<Position> {
    var (kind, s) :- GetNumber(s, 1);
    var (affinity, s) :- GetNumber(s, 1);
    if HeaderFits(version, kind, affinity) then GetRest(KindOf(kind), affinity, s) else Fail
  }

  /** The meaning of a byte string as a token. */
  function Token(bytes: seq<Byte>): Result<Position> {
    if |bytes| > TOKEN_LIMIT then Err(Malformed)
    else if |bytes| < 4 then Err(if bytes != [] && bytes <= MAGIC then Malformed else UnknownFormat)
    else if bytes[..4] != MAGIC then Err(UnknownFormat)
    else
      var version := GetNumber(bytes[4..], 2);
      if version.Fail? then Err(Malformed)
      else if version.value != 1 && version.value != 2 then Err(UnsupportedVersion)
      else
        var body := GetBody(version.value, version.rest);
        if body.Fail? || body.rest != [] || CheckPosition(body.value).Some? then Err(Malformed) else Ok(body.value)
  }

  // ---- Every reader undoes its writer, and accepts nothing else ----

  lemma Widths()
    ensures Power256(1) == 0x100 && Power256(2) == 0x1_0000 && Power256(8) == U64 && Power256(16) == U128
  {
    assert Power256(4) == U32;
    assert Power256(8) == U64;
    assert Power256(12) == U64 * U32;
  }

  lemma {:induction false} GetPutText(t: seq<Byte>, rest: seq<Byte>)
    requires 0 < |t| <= MAX_SCOPE
    ensures GetText(PutText(t) + rest) == Got(t, rest)
  {
    hide BigEndian, NumberOf, Power256, GetNumber, PutText, GetText;
    Widths();
    GetPutNumber(|t|, 2, t + rest);
    assert PutText(t) + rest == BigEndian(|t|, 2) + (t + rest) by {
      TextParts(t);
    }
    TextStep(PutText(t) + rest, |t|, t + rest);
    assert (t + rest)[..|t|] == t && (t + rest)[|t|..] == rest;
  }

  lemma {:induction false} TextParts(t: seq<Byte>)
    ensures PutText(t) == BigEndian(|t|, 2) + t
  {
  }

  lemma {:induction false} TextStep(s: seq<Byte>, size: nat, s': seq<Byte>)
    requires GetNumber(s, 2) == Got(size, s')
    ensures 0 < size <= |s'| && size <= MAX_SCOPE ==> GetText(s) == Got(s'[..size], s'[size..])
    ensures GetText(s).Got? ==> 0 < size <= |s'| && size <= MAX_SCOPE
  {
  }

  lemma {:induction false} PutGetText(s: seq<Byte>)
    requires GetText(s).Got?
    ensures 0 < |GetText(s).value| <= MAX_SCOPE
    ensures s == PutText(GetText(s).value) + GetText(s).rest
  {
    hide BigEndian, NumberOf;
    var size := GetNumber(s, 2);
    PutGetNumber(s, 2);
    TextStep(s, size.value, size.rest);
    assert size.rest == size.rest[..size.value] + size.rest[size.value..];
  }

  lemma {:induction false} GetPutIdentity(id: Identity, rest: seq<Byte>)
    requires Issuable(id)
    ensures GetIdentity(PutIdentity(id) + rest) == Got(id, rest)
  {
    hide BigEndian, NumberOf, Power256, GetNumber;
    Widths();
    var tail := BigEndian(id.counter, 8) + rest;
    assert PutIdentity(id) + rest == BigEndian(id.actor, 16) + tail;
    GetPutNumber(id.actor, 16, tail);
    GetPutNumber(id.counter, 8, rest);
  }

  lemma {:induction false} PutGetIdentity(s: seq<Byte>)
    requires GetIdentity(s).Got?
    ensures Issuable(GetIdentity(s).value)
    ensures s == PutIdentity(GetIdentity(s).value) + GetIdentity(s).rest
  {
    hide BigEndian, NumberOf, Power256, GetNumber;
    PutGetNumber(s, 16);
    PutGetNumber(GetNumber(s, 16).rest, 8);
  }

  lemma {:induction false} GetPutFence(item: Option<Identity>, rest: seq<Byte>)
    requires item.Some? ==> Issuable(item.value)
    ensures GetFence(PutFence(item) + rest) == Got(item, rest)
  {
    hide BigEndian, NumberOf, Power256, GetNumber, GetIdentity, PutIdentity;
    Widths();
    if item.None? {
      GetPutNumber(0, 1, rest);
    } else {
      var tail := PutIdentity(item.value) + rest;
      assert PutFence(item) + rest == BigEndian(1, 1) + tail;
      GetPutNumber(1, 1, tail);
      GetPutIdentity(item.value, rest);
    }
  }

  lemma {:induction false} PutGetFence(s: seq<Byte>)
    requires GetFence(s).Got?
    ensures GetFence(s).value.Some? ==> Issuable(GetFence(s).value.value)
    ensures s == PutFence(GetFence(s).value) + GetFence(s).rest
  {
    hide BigEndian, NumberOf, Power256, GetNumber, GetIdentity, PutIdentity;
    PutGetNumber(s, 1);
    var tag := GetNumber(s, 1);
    if tag.value == 1 {
      PutGetIdentity(tag.rest);
    }
  }

  /** Every pair is usable and the actors climb from `previous`. */
  predicate Climbs(ps: seq<Pair>, previous: Option<ActorId>) {
    Sorted(ps) && AllIssuable(ps) && (previous.Some? && ps != [] ==> previous.value < ps[0].actor)
  }

  lemma {:induction false} NoPair(rest: seq<Byte>)
    ensures PutPairs([]) + rest == rest
  {
  }

  lemma {:induction false} FirstPair(ps: seq<Pair>, rest: seq<Byte>)
    requires ps != []
    ensures PutPairs(ps) + rest == PutIdentity(Identity(ps[0].actor, ps[0].counter)) + (PutPairs(ps[1..]) + rest)
  {
    hide PutIdentity;
  }

  lemma {:induction false} GetPutPairs(ps: seq<Pair>, previous: Option<ActorId>, rest: seq<Byte>)
    requires Climbs(ps, previous)
    ensures GetPairs(|ps|, previous, PutPairs(ps) + rest) == Got(ps, rest)
  {
    hide GetIdentity, PutIdentity, PutPairs;
    if ps == [] {
      NoPair(rest);
    } else {
      var id := Identity(ps[0].actor, ps[0].counter);
      var tail := PutPairs(ps[1..]) + rest;
      FirstPair(ps, rest);
      GetPutIdentity(id, tail);
      GetPutPairs(ps[1..], Some(ps[0].actor), rest);
      assert ps == [ps[0]] + ps[1..];
    }
  }

  lemma {:induction false} PutGetPairs(n: nat, previous: Option<ActorId>, s: seq<Byte>)
    requires GetPairs(n, previous, s).Got?
    ensures |GetPairs(n, previous, s).value| == n && Climbs(GetPairs(n, previous, s).value, previous)
    ensures s == PutPairs(GetPairs(n, previous, s).value) + GetPairs(n, previous, s).rest
  {
    hide GetIdentity, PutIdentity;
    var r := GetPairs(n, previous, s);
    if n == 0 {
      assert PutPairs([]) + s == s;
    } else {
      var id := GetIdentity(s);
      PutGetIdentity(s);
      PutGetPairs(n - 1, Some(id.value.actor), id.rest);
      var more := GetPairs(n - 1, Some(id.value.actor), id.rest);
      assert r.value == [Pair(id.value.actor, id.value.counter)] + more.value;
      assert r.value[1..] == more.value;
    }
  }

  lemma {:induction false} GetPutFrontier(ps: seq<Pair>, rest: seq<Byte>)
    requires |ps| <= MAX_ACTORS && Climbs(ps, None)
    ensures GetFrontier(BigEndian(|ps|, 2) + PutPairs(ps) + rest) == Got(ps, rest)
  {
    hide BigEndian, NumberOf, Power256, GetNumber, GetPairs, PutPairs, Climbs;
    Widths();
    var tail := PutPairs(ps) + rest;
    assert BigEndian(|ps|, 2) + PutPairs(ps) + rest == BigEndian(|ps|, 2) + tail;
    GetPutNumber(|ps|, 2, tail);
    GetPutPairs(ps, None, rest);
  }

  lemma {:induction false} PutGetFrontier(s: seq<Byte>)
    requires GetFrontier(s).Got?
    ensures |GetFrontier(s).value| <= MAX_ACTORS && Climbs(GetFrontier(s).value, None)
    ensures s == BigEndian(|GetFrontier(s).value|, 2) + PutPairs(GetFrontier(s).value) + GetFrontier(s).rest
  {
    hide BigEndian, NumberOf, Power256, GetNumber, GetPairs, PutPairs, Climbs;
    PutGetNumber(s, 2);
    var count := GetNumber(s, 2);
    PutGetPairs(count.value, None, count.rest);
  }

  lemma {:induction false} ValidParts(p: Position)
    requires Valid(p)
    ensures 0 < |p.scope.document| <= MAX_SCOPE && 0 < |p.scope.stream| <= MAX_SCOPE
    ensures p.scope.primitive == PrimitiveOf(p.kind)
    ensures |p.frontier| <= MAX_ACTORS && Climbs(p.frontier, None)
    ensures NamesElement(p.kind) ==> p.referent.Some? && p.left.None? && p.right.None? && p.affinity.LeftAffinity?
    ensures !NamesElement(p.kind) ==> p.referent.None?
    ensures p.left.Some? ==> Issuable(p.left.value)
    ensures p.right.Some? ==> Issuable(p.right.value)
    ensures p.referent.Some? ==> Issuable(p.referent.value)
  {
  }

  lemma {:induction false} GetPutAnchors(p: Position)
    requires Valid(p)
    ensures GetAnchors(p.kind, AnchorPart(p)) == Got(Anchors(p.left, p.right, p.referent), FrontierPart(p))
  {
    hide GetIdentity, PutIdentity, GetFence, PutFence, Valid, Issuable, FrontierPart;
    ValidParts(p);
    if NamesElement(p.kind) {
      GetPutIdentity(p.referent.value, FrontierPart(p));
    } else {
      GetPutFence(p.left, PutFence(p.right) + FrontierPart(p));
      GetPutFence(p.right, FrontierPart(p));
    }
  }

  lemma {:induction false} GetPutSelection(p: Position)
    requires Valid(p)
    ensures GetSelection(p.kind, SelectionPart(p)) == Got(Normal(p).selection, AnchorPart(p))
  {
    hide BigEndian, NumberOf, Power256, GetNumber, Valid, AnchorPart;
    ValidParts(p);
    Widths();
    if p.kind.TextAttachment? {
      GetPutNumber(if p.selection.Preceding? then 1 else 2, 1, AnchorPart(p));
    }
  }

  lemma {:induction false} GetPutScope(p: Position)
    requires Valid(p)
    ensures GetScope(p.kind, ScopePart(p)) == Got(p.scope, SelectionPart(p))
  {
    hide BigEndian, NumberOf, Power256, GetNumber, Valid, SelectionPart, GetText, PutText;
    ValidParts(p);
    Widths();
    GetPutText(p.scope.document, PutText(p.scope.stream) + (BigEndian(p.scope.epoch, 8) + SelectionPart(p)));
    GetPutText(p.scope.stream, BigEndian(p.scope.epoch, 8) + SelectionPart(p));
    GetPutNumber(p.scope.epoch, 8, SelectionPart(p));
  }

  lemma {:induction false} GetPutBody(p: Position)
    requires Valid(p)
    ensures GetBody(VersionOf(p.kind), Body(p)) == Got(Normal(p), [])
  {
    hide BigEndian, NumberOf, Power256, GetNumber, Valid, ScopePart, SelectionPart, AnchorPart, FrontierPart, GetScope,
         GetSelection, GetAnchors, GetFrontier, PutPairs;
    ValidParts(p);
    Widths();
    var affinity := if p.affinity.RightAffinity? then 1 else 0;
    GetPutNumber(KindCode(p.kind), 1, BigEndian(affinity, 1) + ScopePart(p));
    GetPutNumber(affinity, 1, ScopePart(p));
    GetPutScope(p);
    GetPutSelection(p);
    GetPutAnchors(p);
    assert GetFrontier(FrontierPart(p)) == Got(p.frontier, []) by {
      GetPutFrontier(p.frontier, []);
      FrontierParts(p);
      assert FrontierPart(p) + [] == FrontierPart(p);
    }
  }

  lemma {:induction false} FrontierParts(p: Position)
    ensures FrontierPart(p) == BigEndian(|p.frontier|, 2) + PutPairs(p.frontier)
  {
  }

  // ---- How long a frame is ----

  lemma {:induction false} PairsLength(ps: seq<Pair>)
    ensures |PutPairs(ps)| == 24 * |ps|
  {
    if ps != [] {
      PairsLength(ps[1..]);
    }
  }

  /** A valid frame is far below the limit, so the limit test never refuses one. */
  lemma {:induction false} FrameIsSmall(p: Position)
    requires Valid(p)
    ensures 16 <= |Frame(p)| <= 12_873
  {
    hide Valid, BigEndian, PutPairs;
    ValidParts(p);
    PairsLength(p.frontier);
  }

  /** Decoding an encoded position gives the position back. */
  lemma {:induction false} TokenOfFrame(p: Position)
    requires Valid(p)
    ensures Token(Frame(p)) == Ok(Normal(p))
    ensures Normal(p) == p <==> p.kind.TextAttachment? || p.selection.Following?
  {
    hide Valid, BigEndian, NumberOf, Power256, GetNumber, Body, GetBody, CheckPosition;
    ValidParts(p);
    FrameIsSmall(p);
    Widths();
    var tail := BigEndian(VersionOf(p.kind), 2) + Body(p);
    var frame := Frame(p);
    assert frame == MAGIC + tail;
    assert frame[..4] == MAGIC && frame[4..] == tail;
    GetPutNumber(VersionOf(p.kind), 2, Body(p));
    GetPutBody(p);
    NormalIsValid(p);
  }

  lemma {:induction false} NormalIsValid(p: Position)
    requires Valid(p)
    ensures Valid(Normal(p)) && CheckPosition(Normal(p)).None? && Frame(Normal(p)) == Frame(p)
  {
  }

  lemma {:induction false} PutGetRest(k: PositionKind, affinity: nat, s: seq<Byte>)
    requires GetRest(k, affinity, s).Got?
    requires affinity <= 1
    ensures var p := GetRest(k, affinity, s).value;
            && p.kind == k && Canonical(p.frontier) && Normal(p) == p
            && (NamesElement(k) ==> p.referent.Some?)
            && s == ScopePart(p) + GetRest(k, affinity, s).rest
  {
    hide *;
    var p, rest := GetRest(k, affinity, s).value, GetRest(k, affinity, s).rest;
    var s1, s2, s3 := RestParts(k, affinity, s);
    PutGetScope(k, s);
    PutGetSelection(k, s1);
    PutGetAnchors(k, s2);
    PutGetFrontier(s3);
    ClimbsIsCanonical(p.frontier);
    FrontierParts(p);
    assert s3 == FrontierPart(p) + rest;
    AnchorParts(p);
    assert s2 == AnchorPart(p) + rest by {
      if NamesElement(k) {
        Append(PutIdentity(p.referent.value), FrontierPart(p), rest);
      } else {
        Append(PutFence(p.left), PutFence(p.right) + FrontierPart(p), rest);
        Append(PutFence(p.right), FrontierPart(p), rest);
      }
    }
    assert s1 == SelectionPart(p) + rest by {
      if k.TextAttachment? {
        Append(BigEndian(if p.selection.Preceding? then 1 else 2, 1), AnchorPart(p), rest);
      } else {
        assert [] + s2 == s2;
      }
    }
    Append(PutText(p.scope.document), PutText(p.scope.stream) + (BigEndian(p.scope.epoch, 8) + SelectionPart(p)), rest);
    Append(PutText(p.scope.stream), BigEndian(p.scope.epoch, 8) + SelectionPart(p), rest);
    Append(BigEndian(p.scope.epoch, 8), SelectionPart(p), rest);
    BodyParts(p);
  }

  lemma {:induction false} ClimbsIsCanonical(ps: seq<Pair>)
    requires Climbs(ps, None)
    ensures Canonical(ps)
  {
    assert forall i :: 0 <= i < |ps| ==> Issuable(Identity(ps[i].actor, ps[i].counter));
  }

  /** What is left before each part, and where each field comes from. */
  lemma {:induction false} RestParts(k: PositionKind, affinity: nat, s: seq<Byte>)
    returns (s1: seq<Byte>, s2: seq<Byte>, s3: seq<Byte>)
    requires GetRest(k, affinity, s).Got?
    ensures var p := GetRest(k, affinity, s).value;
            && GetScope(k, s) == Got(p.scope, s1)
            && GetSelection(k, s1) == Got(p.selection, s2)
            && GetAnchors(k, s2) == Got(Anchors(p.left, p.right, p.referent), s3)
            && GetFrontier(s3) == Got(p.frontier, GetRest(k, affinity, s).rest)
            && p.kind == k
            && (Normal(p) == p <==> k.TextAttachment? || p.selection.Following?)
  {
    hide GetScope, GetSelection, GetAnchors, GetFrontier;
    s1 := GetScope(k, s).rest;
    s2 := GetSelection(k, s1).rest;
    s3 := GetAnchors(k, s2).rest;
  }

  lemma {:induction false} AnchorParts(p: Position)
    requires NamesElement(p.kind) ==> p.referent.Some?
    ensures NamesElement(p.kind) ==> AnchorPart(p) == PutIdentity(p.referent.value) + FrontierPart(p)
    ensures !NamesElement(p.kind) ==> AnchorPart(p) == PutFence(p.left) + (PutFence(p.right) + FrontierPart(p))
    ensures p.kind.TextAttachment? ==> SelectionPart(p) == BigEndian(if p.selection.Preceding? then 1 else 2, 1) + AnchorPart(p)
    ensures !p.kind.TextAttachment? ==> SelectionPart(p) == AnchorPart(p)
  {
  }

  lemma {:induction false} PutGetScope(k: PositionKind, s: seq<Byte>)
    requires GetScope(k, s).Got?
    ensures var c := GetScope(k, s).value;
            s == PutText(c.document) + (PutText(c.stream) + (BigEndian(c.epoch, 8) + GetScope(k, s).rest))
  {
    hide BigEndian, NumberOf, Power256, GetNumber, GetText, PutText;
    var document := GetText(s);
    PutGetText(s);
    var stream := GetText(document.rest);
    PutGetText(document.rest);
    PutGetNumber(stream.rest, 8);
  }

  lemma {:induction false} PutGetSelection(k: PositionKind, s: seq<Byte>)
    requires GetSelection(k, s).Got?
    ensures var c := GetSelection(k, s);
            && (k.TextAttachment? || c.value.Following?)
            && s == (if k.TextAttachment? then BigEndian(if c.value.Preceding? then 1 else 2, 1) else []) + c.rest
  {
    hide BigEndian, NumberOf, Power256, GetNumber;
    if k.TextAttachment? {
      PutGetNumber(s, 1);
    }
  }

  lemma {:induction false} PutGetAnchors(k: PositionKind, s: seq<Byte>)
    requires GetAnchors(k, s).Got?
    ensures var c := GetAnchors(k, s);
            && (NamesElement(k) ==> c.value.referent.Some? && s == PutIdentity(c.value.referent.value) + c.rest)
            && (!NamesElement(k) ==> s == PutFence(c.value.left) + (PutFence(c.value.right) + c.rest))
  {
    hide GetIdentity, PutIdentity, GetFence, PutFence;
    if NamesElement(k) {
      PutGetIdentity(s);
    } else {
      PutGetFence(s);
      PutGetFence(GetFence(s).rest);
    }
  }

  /** Every byte string that decodes is the one encoding of what it decodes to. */
  lemma {:induction false} FrameOfToken(bytes: seq<Byte>)
    requires Token(bytes).Ok?
    ensures Valid(Token(bytes).value) && Normal(Token(bytes).value) == Token(bytes).value
    ensures Frame(Token(bytes).value) == bytes
  {
    hide BigEndian, NumberOf, Power256, GetNumber, GetRest, CheckPosition, ScopePart, Normal, Canonical;
    var tail := bytes[4..];
    assert bytes == MAGIC + tail;
    PutGetNumber(tail, 2);
    var version := GetNumber(tail, 2);
    var kind := GetNumber(version.rest, 1);
    PutGetNumber(version.rest, 1);
    var affinity := GetNumber(kind.rest, 1);
    PutGetNumber(kind.rest, 1);
    var p := Token(bytes).value;
    PutGetRest(KindOf(kind.value), affinity.value, affinity.rest);
    RestAffinity(KindOf(kind.value), affinity.value, affinity.rest);
    assert ScopePart(p) + [] == ScopePart(p);
  }

  lemma {:induction false} RestAffinity(k: PositionKind, affinity: nat, s: seq<Byte>)
    requires GetRest(k, affinity, s).Got?
    ensures GetRest(k, affinity, s).value.affinity == if affinity == 1 then RightAffinity else LeftAffinity
  {
    hide GetScope, GetSelection, GetAnchors, GetFrontier;
  }

  /** Two tokens are the same bytes exactly when they are the same position. */
  lemma {:induction false} TokensAreUnique(a: seq<Byte>, b: seq<Byte>)
    requires Token(a).Ok? && Token(b).Ok?
    ensures Token(a) == Token(b) <==> a == b
  {
    hide *;
    FrameOfToken(a);
    FrameOfToken(b);
  }

  // ---- The writer and the reader ----

  class Writer {
    var bytes: seq<Byte>

    constructor ()
      ensures bytes == MAGIC
    {
      bytes := MAGIC;
    }

    method Number(value: nat, width: nat)
      modifies this
      ensures bytes == old(bytes) + BigEndian(value, width)
    {
      ghost var start := bytes;
      var n: nat := width;
      while n > 0
        invariant n <= width
        invariant bytes == start + BigEndian(Shift(value, n), width - n)
      {
        bytes := bytes + [Shift(value, n - 1) % 256];
        n := n - 1;
      }
    }

    method Text(text: seq<Byte>)
      modifies this
      ensures bytes == old(bytes) + PutText(text)
    {
      Number(|text|, 2);
      bytes := bytes + text;
    }

    method WriteIdentity(id: Identity)
      modifies this
      ensures bytes == old(bytes) + PutIdentity(id)
    {
      Number(id.actor, 16);
      Number(id.counter, 8);
    }

    method Fence(item: Option<Identity>)
      modifies this
      ensures bytes == old(bytes) + PutFence(item)
    {
      ghost var start := bytes;
      var tag := if item.Some? then 1 else 0;
      Number(tag, 1);
      assert item.None? ==> PutFence(item) == BigEndian(tag, 1);
      if item.Some? {
        WriteIdentity(item.value);
        assert PutFence(item) == BigEndian(tag, 1) + PutIdentity(item.value);
        assert bytes == start + PutFence(item);
      }
    }

    method Frontier(ps: seq<Pair>)
      modifies this
      ensures bytes == old(bytes) + (BigEndian(|ps|, 2) + PutPairs(ps))
    {
      ghost var first := bytes;
      Number(|ps|, 2);
      ghost var start := bytes;
      Append(first, BigEndian(|ps|, 2), PutPairs(ps));
      var n := 0;
      while n < |ps|
        invariant n <= |ps|
        invariant bytes + PutPairs(ps[n..]) == start + PutPairs(ps)
      {
        ghost var before := bytes;
        WriteIdentity(Identity(ps[n].actor, ps[n].counter));
        assert ps[n..][1..] == ps[n + 1..];
        assert before + PutPairs(ps[n..]) == bytes + PutPairs(ps[n + 1..]);
        n := n + 1;
      }
      assert PutPairs(ps[n..]) == [] && bytes + [] == bytes;
    }
  }

  /** Refuses exactly the invalid positions; the frame of a valid one never
      reaches the size limit. */
  method EncodePosition(p: Position) returns (r: Result<seq<Byte>>)
    requires Canonical(p.frontier)
    ensures r.Ok? <==> Valid(p)
    ensures r.Ok? ==> r.value == Frame(p) && Token(r.value) == Ok(Normal(p))
    ensures r.Err? ==> CheckPosition(p) == Some(r.error)
  {
    hide BigEndian, PutText, PutIdentity, PutFence, PutPairs, NumberOf, CheckPosition, Token, Normal, Canonical;
    var checked := CheckPosition(p);
    if checked.Some? {
      return Err(checked.value);
    }
    ValidParts(p);
    ghost var frame := Frame(p);
    var w := new Writer();
    w.Number(if p.kind.TextMarker? then 2 else 1, 2);
    Append(MAGIC, BigEndian(VersionOf(p.kind), 2), Body(p));
    EncodeBody(p, w);
    assert w.bytes == frame;
    FrameIsSmall(p);
    TokenOfFrame(p);
    return Ok(w.bytes);
  }

  lemma Append<T>(a: seq<T>, b: seq<T>, c: seq<T>)
    ensures a + b + c == a + (b + c)
  {
  }

  method EncodeBody(p: Position, w: Writer)
    requires NamesElement(p.kind) ==> p.referent.Some?
    modifies w
    ensures w.bytes == old(w.bytes) + Body(p)
  {
    hide *;
    ghost var start := w.bytes;
    BodyParts(p);
    var kind, affinity := KindCode(p.kind), if p.affinity.RightAffinity? then 1 else 0;
    w.Number(kind, 1);
    Append(start, BigEndian(kind, 1), BigEndian(affinity, 1) + ScopePart(p));
    ghost var now := w.bytes;
    w.Number(affinity, 1);
    Append(now, BigEndian(affinity, 1), ScopePart(p));
    now := w.bytes;
    w.Text(p.scope.document);
    Append(now, PutText(p.scope.document), PutText(p.scope.stream) + (BigEndian(p.scope.epoch, 8) + SelectionPart(p)));
    now := w.bytes;
    w.Text(p.scope.stream);
    Append(now, PutText(p.scope.stream), BigEndian(p.scope.epoch, 8) + SelectionPart(p));
    now := w.bytes;
    w.Number(p.scope.epoch, 8);
    Append(now, BigEndian(p.scope.epoch, 8), SelectionPart(p));
    EncodeAnchors(p, w);
  }

  lemma BodyParts(p: Position)
    requires NamesElement(p.kind) ==> p.referent.Some?
    ensures Body(p) == BigEndian(KindCode(p.kind), 1) + (BigEndian(if p.affinity.RightAffinity? then 1 else 0, 1) + ScopePart(p))
    ensures ScopePart(p)
         == PutText(p.scope.document) + (PutText(p.scope.stream) + (BigEndian(p.scope.epoch, 8) + SelectionPart(p)))
  {
  }

  method EncodeAnchors(p: Position, w: Writer)
    requires NamesElement(p.kind) ==> p.referent.Some?
    modifies w
    ensures w.bytes == old(w.bytes) + SelectionPart(p)
  {
    hide BigEndian, PutText, PutIdentity, PutFence, PutPairs;
    if p.kind.TextAttachment? {
      ghost var now := w.bytes;
      var code := if p.selection.Preceding? then 1 else 2;
      w.Number(code, 1);
      Append(now, BigEndian(code, 1), AnchorPart(p));
    }
    ghost var now := w.bytes;
    if NamesElement(p.kind) {
      w.WriteIdentity(p.referent.value);
      Append(now, PutIdentity(p.referent.value), FrontierPart(p));
    } else {
      w.Fence(p.left);
      Append(now, PutFence(p.left), PutFence(p.right) + FrontierPart(p));
      now := w.bytes;
      w.Fence(p.right);
      Append(now, PutFence(p.right), FrontierPart(p));
    }
    w.Frontier(p.frontier);
  }

  /** Holds the position of the next byte and whether a field has failed. */
  class Reader {
    const input: seq<Byte>
    var position: nat
    var failed: bool

    ghost predicate Valid()
      reads this
    {
      position <= |input|
    }

    ghost function Rest(): seq<Byte>
      requires Valid()
      reads this
    {
      input[position..]
    }

    constructor (input: seq<Byte>, position: nat)
      requires position <= |input|
      ensures Valid() && !failed && this.input == input && Rest() == input[position..]
    {
      this.input := input;
      this.position := position;
      this.failed := false;
    }

    method Fail()
      modifies this`failed
      ensures failed
    {
      failed := true;
    }

    method Available(n: nat) returns (ok: bool)
      requires Valid()
      modifies this`failed
      ensures Valid()
      ensures ok <==> !old(failed) && n <= |Rest()|
      ensures failed == !ok
    {
      if failed {
        return false;
      }
      if n > |input| - position {
        Fail();
        return false;
      }
      return true;
    }

    method Number(width: nat) returns (value: nat)
      requires Valid()
      modifies this
      ensures Valid() && (old(failed) ==> failed)
      ensures value < Power256(width)
      ensures !old(failed) ==> Reads(GetNumber(old(Rest()), width), value)
    {
      var ok := Available(width);
      if !ok {
        return 0;
      }
      ghost var start := Rest();
      value := 0;
      var n := 0;
      while n < width
        invariant n <= width <= |start| && Valid() && Rest() == start[n..] && !failed
        invariant value == NumberOf(start[..n])
      {
        assert start[..n + 1][..n] == start[..n] && start[..n + 1][n] == start[n] == input[position];
        value := value * 256 + input[position];
        position := position + 1;
        n := n + 1;
      }
      NumberIsBounded(start[..width]);
    }

    method Text() returns (value: seq<Byte>)
      requires Valid()
      modifies this
      ensures Valid() && (old(failed) ==> failed)
      ensures !old(failed) ==> Reads(GetText(old(Rest())), value)
    {
      value := [];
      ghost var start := Rest();
      var size := Number(2);
      ghost var tail := Rest();
      if size == 0 || size > MAX_SCOPE {
        Fail();
        return;
      }
      var ok := Available(size);
      if !ok {
        return;
      }
      assert GetNumber(start, 2) == Got(size, tail);
      value := input[position..position + size];
      position := position + size;
      assert value == tail[..size] && Rest() == tail[size..];
    }

    method ReadIdentity() returns (id: Identity)
      requires Valid()
      modifies this
      ensures Valid() && (old(failed) ==> failed)
      ensures !old(failed) ==> Reads(GetIdentity(old(Rest())), id)
    {
      Widths();
      id := Identity(0, 0);
      var ok := Available(24);
      if !ok {
        return;
      }
      ghost var start := Rest();
      var actor := Number(16);
      var counter := Number(8);
      id := Identity(actor, counter);
      if !Issuable(id) {
        Fail();
      }
      assert GetNumber(start, 16).Got? && GetNumber(start[16..], 8) == Got(counter, Rest());
      assert !failed ==> GetIdentity(start) == Got(id, Rest());
      assert failed ==> GetIdentity(start).Fail?;
    }

    method Fence() returns (item: Option<Identity>)
      requires Valid()
      modifies this
      ensures Valid() && (old(failed) ==> failed)
      ensures !old(failed) ==> Reads(GetFence(old(Rest())), item)
    {
      var tag := Number(1);
      if tag > 1 {
        Fail();
        return None;
      }
      if tag == 0 {
        return None;
      }
      var id := ReadIdentity();
      return Some(id);
    }

    method ReadScope(k: PositionKind) returns (scope: Scope)
      requires Valid()
      modifies this
      ensures Valid() && (old(failed) ==> failed)
      ensures !old(failed) ==> Reads(GetScope(k, old(Rest())), scope)
    {
      hide GetNumber, GetText, Power256;
      Widths();
      var document := Text();
      var stream := Text();
      var epoch := Number(8);
      scope := Scope(document, stream, epoch, PrimitiveOf(k));
    }

    method ReadSelection(k: PositionKind) returns (selection: Referent)
      requires Valid()
      modifies this
      ensures Valid() && (old(failed) ==> failed)
      ensures !old(failed) ==> Reads(GetSelection(k, old(Rest())), selection)
    {
      hide GetNumber, Power256;
      selection := Following;
      if k.TextAttachment? {
        var selected := Number(1);
        if selected != 1 && selected != 2 {
          Fail();
        }
        selection := if selected == 1 then Preceding else Following;
      }
    }

    method ReadAnchors(k: PositionKind) returns (anchors: Anchors)
      requires Valid()
      modifies this
      ensures Valid() && (old(failed) ==> failed)
      ensures !old(failed) ==> Reads(GetAnchors(k, old(Rest())), anchors)
    {
      hide GetIdentity, GetFence;
      if NamesElement(k) {
        var id := ReadIdentity();
        anchors := Anchors(None, None, Some(id));
      } else {
        var left := Fence();
        var right := Fence();
        anchors := Anchors(left, right, None);
      }
    }

    method ReadFrontier() returns (frontier: seq<Pair>)
      requires Valid()
      modifies this
      ensures Valid() && (old(failed) ==> failed)
      ensures !old(failed) ==> Reads(GetFrontier(old(Rest())), frontier)
    {
      hide GetNumber, GetIdentity, Issuable, Power256;
      frontier := [];
      var count := Number(2);
      if count > MAX_ACTORS {
        Fail();
      }
      if failed {
        return;
      }
      ghost var start := Rest();
      var previous: Option<ActorId> := None;
      var n := 0;
      assert GetPairs(count, None, start).Got? ==> [] + GetPairs(count, None, start).value == GetPairs(count, None, start).value;
      while n < count
        invariant n <= count && |frontier| == n && Valid() && !failed
        invariant (match GetPairs(count - n, previous, Rest())
                   case Fail => GetPairs(count, None, start).Fail?
                   case Got(more, rest) => GetPairs(count, None, start) == Got(frontier + more, rest))
      {
        ghost var before, shorter := Rest(), frontier;
        var id := ReadIdentity();
        if failed {
          return;
        }
        if previous.Some? && !(previous.value < id.actor) {
          Fail();
          return;
        }
        ghost var next := GetPairs(count - n - 1, Some(id.actor), Rest());
        if next.Got? {
          Append(shorter, [Pair(id.actor, id.counter)], next.value);
        }
        frontier := frontier + [Pair(id.actor, id.counter)];
        previous := Some(id.actor);
        n := n + 1;
      }
      assert frontier + [] == frontier;
    }

    /** The field was read off the front, or the failure is latched. */
    ghost predicate Reads<T>(field: Parsed<T>, value: T)
      requires Valid()
      reads this
    {
      if failed then field.Fail? else field == Got(value, Rest())
    }
  }

  // ---- Decoding ----

  /** Observing an actor above all others appends its pair, so the pairs read in
      order are the array of the vector that observed them. */
  lemma {:induction false} ObserveAppends(ps: seq<Pair>, id: Identity)
    requires Canonical(ps) && id.counter > 0
    requires forall i :: 0 <= i < |ps| ==> ps[i].actor < id.actor
    ensures Canonical(ps + [Pair(id.actor, id.counter)])
    ensures ViewOf(ps + [Pair(id.actor, id.counter)]) == Observe(ViewOf(ps), id)
  {
    InsertKeeps(ps, |ps|, id);
    assert WithPair(ps, |ps|, Pair(id.actor, id.counter)) == ps + [Pair(id.actor, id.counter)];
  }

  /** The version vector that has observed these pairs one after the other. */
  ghost function ObservedAll(ps: seq<Pair>): Version {
    if ps == [] then map[]
    else Observe(ObservedAll(ps[..|ps| - 1]), Identity(ps[|ps| - 1].actor, ps[|ps| - 1].counter))
  }

  /** The frontier of a token that is read is the array of the version vector that
      observes its pairs in the order they are read. */
  lemma {:induction false} FrontierIsObserved(ps: seq<Pair>)
    requires Sorted(ps) && AllIssuable(ps)
    ensures Canonical(ps) && ViewOf(ps) == ObservedAll(ps)
  {
    hide *;
    if ps == [] {
      NothingObserved();
    } else {
      var n := |ps| - 1;
      LastObserved(ps);
      FrontierIsObserved(ps[..n]);
      ObserveAppends(ps[..n], Identity(ps[n].actor, ps[n].counter));
      assert ps == ps[..n] + [ps[n]];
    }
  }

  lemma {:induction false} LastObserved(ps: seq<Pair>)
    requires Sorted(ps) && AllIssuable(ps) && ps != []
    ensures var init, last := ps[..|ps| - 1], ps[|ps| - 1];
            && Sorted(init) && AllIssuable(init) && last.counter > 0 && Pair(last.actor, last.counter) == last
            && (forall i :: 0 <= i < |init| ==> init[i].actor < last.actor)
            && ObservedAll(ps) == Observe(ObservedAll(init), Identity(last.actor, last.counter))
  {
    hide Observe;
    assert Issuable(Identity(ps[|ps| - 1].actor, ps[|ps| - 1].counter));
  }

  lemma {:induction false} NothingObserved()
    ensures Canonical([]) && ViewOf([]) == map[] && ObservedAll([]) == map[]
  {
  }

  /** Decodes by the reader above; `DecodePosition` finds in a byte string what
      `Token` says it means, so `TokenOfFrame` and `FrameOfToken` speak of it. */
  method DecodePosition(bytes: seq<Byte>) returns (r: Result<Position>)
    ensures r == Token(bytes)
    ensures r.Ok? ==> Valid(r.value) && Frame(r.value) == bytes
  {
    if |bytes| > TOKEN_LIMIT {
      return Err(Malformed);
    }
    if |bytes| < 4 {
      if bytes != [] && MAGIC[..|bytes|] == bytes {
        return Err(Malformed);
      }
      return Err(UnknownFormat);
    }
    if bytes[..4] != MAGIC {
      return Err(UnknownFormat);
    }
    var reader := new Reader(bytes, 4);
    var version := reader.Number(2);
    if reader.failed {
      return Err(Malformed);
    }
    if version != 1 && version != 2 {
      return Err(UnsupportedVersion);
    }
    var body := DecodeBody(version, reader);
    if body.None? || reader.position != |bytes| || CheckPosition(body.value).Some? {
      return Err(Malformed);
    }
    FrameOfToken(bytes);
    return Ok(body.value);
  }

  method DecodeBody(version: nat, reader: Reader) returns (body: Option<Position>)
    requires reader.Valid() && !reader.failed
    modifies reader
    ensures reader.Valid()
    ensures (match GetBody(version, old(reader.Rest()))
             case Fail => body.None?
             case Got(p, rest) => body == Some(p) && reader.Rest() == rest)
  {
    hide GetNumber, Power256, GetScope, GetSelection, GetAnchors, GetFrontier;
    var kind := reader.Number(1);
    var affinity := reader.Number(1);
    if reader.failed {
      return None;
    }
    if !HeaderFits(version, kind, affinity) {
      return None;
    }
    var k := KindOf(kind);
    var scope := reader.ReadScope(k);
    var selection := reader.ReadSelection(k);
    var anchors := reader.ReadAnchors(k);
    var frontier := reader.ReadFrontier();
    if reader.failed {
      return None;
    }
    return Some(Position(scope, k, if affinity == 1 then RightAffinity else LeftAffinity, frontier,
                         anchors.left, anchors.right, anchors.referent, selection));
  }
}
