/** Operation frames: the value tree an operation is written as, what a tree means
    as an operation, and the round trip through the bytes. */
module OperationFrames {
  import opened Ids
  import opened Bytes
  import opened Clock
  import opened FugueOrder
  import opened WireOperations
  import opened Utf
  import opened Json

  const FRAME_LIMIT: nat := 0x80_0000
  const MAX_FRONTIER: nat := 512
  const MAX_TARGETS: nat := 0x1_0000

  // ---- Numbers and actors as hexadecimal text ----

  function Power16(k: nat): (p: nat)
    ensures p > 0
  {
    if k == 0 then 1 else 16 * Power16(k - 1)
  }

  function Hex(value: nat, digits: nat): (s: seq<Byte>)
    ensures |s| == digits
  {
    if digits == 0 then [] else Hex(value / 16, digits - 1) + [HexDigit(value % 16)]
  }

  /** Lower-case digits only. */
  function LowerHex(b: Byte): Option<nat> {
    if 0x30 <= b <= 0x39 then Some(b - 0x30)
    else if 0x61 <= b <= 0x66 then Some(b - 0x61 + 10)
    else None
  }

  function ReadHex(s: seq<Byte>): Option<nat> {
    if s == [] then Some(0)
    else
      var more, last := ReadHex(s[..|s| - 1]), LowerHex(s[|s| - 1]);
      if more.None? || last.None? then None else Some(more.value * 16 + last.value)
  }

  lemma {:induction false} HexReads(value: nat, digits: nat)
    requires value < Power16(digits)
    ensures ReadHex(Hex(value, digits)) == Some(value)
  {
    if digits > 0 {
      HexReads(value / 16, digits - 1);
      assert Hex(value, digits)[..digits - 1] == Hex(value / 16, digits - 1);
    }
  }

  lemma {:induction false} HexIsBounded(s: seq<Byte>)
    ensures ReadHex(s).Some? ==> ReadHex(s).value < Power16(|s|)
  {
    if s != [] {
      HexIsBounded(s[..|s| - 1]);
    }
  }

  lemma {:induction false} HexIsCanonical(s: seq<Byte>)
    requires ReadHex(s).Some?
    ensures Hex(ReadHex(s).value, |s|) == s
  {
    if s != [] {
      var n := |s| - 1;
      HexIsCanonical(s[..n]);
      var v, d := ReadHex(s[..n]).value, LowerHex(s[n]).value;
      assert (v * 16 + d) / 16 == v && (v * 16 + d) % 16 == d;
      assert s == s[..n] + [s[n]];
    }
  }

  lemma Widths16()
    ensures Power16(16) == U64 && Power16(32) == U128
  {
    assert Power16(4) == 0x1_0000;
    assert Power16(8) == U32;
    assert Power16(12) == 0x1_0000 * U32;
    assert Power16(16) == U64;
    assert Power16(20) == 0x1_0000 * U64;
    assert Power16(24) == U32 * U64;
    assert Power16(28) == 0x1_0000 * U32 * U64;
  }

  lemma {:induction false} HexIsText(value: nat, digits: nat)
    ensures IsUtf8(Hex(value, digits))
  {
    if digits == 0 {
      assert Utf8([]) == [];
    } else {
      HexIsText(value / 16, digits - 1);
      var cs :| Utf8(cs) == Hex(value / 16, digits - 1);
      var c := HexDigit(value % 16);
      Utf8Append(cs, [c]);
      assert Utf8([c]) == [c] + Utf8([]);
    }
  }

  // ---- Trees ----

  function NumberTree(value: nat): Value {
    String(Hex(value, 16))
  }

  function IdentityTree(id: Identity): Value {
    Array([String(Hex(id.actor, 32)), NumberTree(id.counter)])
  }

  function OptionalTree(id: Option<Identity>): Value {
    if id.None? then Array([]) else IdentityTree(id.value)
  }

  const KEY_P: seq<Byte> := [0x70]
  const KEY_S: seq<Byte> := [0x73]
  const KEY_R: seq<Byte> := [0x72]
  const KEY_O: seq<Byte> := [0x6F]
  const KEY_K: seq<Byte> := [0x6B]
  const KEY_C: seq<Byte> := [0x63]
  const KEY_N: seq<Byte> := [0x6E]
  const KEY_M: seq<Byte> := [0x6D]
  const KEY_T: seq<Byte> := [0x74]
  const KEY_V: seq<Byte> := [0x76]
  const KEY_A: seq<Byte> := [0x61]
  const KEY_TS: seq<Byte> := [0x74, 0x73]
  const KEY_NT: seq<Byte> := [0x6E, 0x74]
  const KEY_IF: seq<Byte> := [0x69, 0x66]
  const KEY_DR: seq<Byte> := [0x64, 0x72]
  const KEY_DID: seq<Byte> := [0x64, 0x69, 0x64]
  const KEY_MARKER: seq<Byte> := [0x6D, 0x61, 0x72, 0x6B, 0x65, 0x72]
  const TAG_EDIT: seq<Byte> := [0x65]
  const TAG_UNDO: seq<Byte> := [0x75]

  function LinkTree(link: Link): Value {
    Object([Member(KEY_P, OptionalTree(link.parent)),
            Member(KEY_S, NumberTree(if link.side.Left? then 0 else 1)),
            Member(KEY_R, OptionalTree(link.rightOrigin))])
  }

  function FrontierMember(p: Pair): Member {
    Member(Hex(p.actor, 32), NumberTree(p.counter))
  }

  function FrontierMembers(ps: seq<Pair>): (ms: seq<Member>)
    ensures |ms| == |ps|
  {
    if ps == [] then [] else FrontierMembers(ps[..|ps| - 1]) + [FrontierMember(ps[|ps| - 1])]
  }

  function CountedTree(c: Counted): Value {
    Array([IdentityTree(c.id), NumberTree(c.count)])
  }

  function SpanTree(s: Span): Value {
    Array([NumberTree(s.start), NumberTree(s.end)])
  }

  function TextTree(text: seq<Byte>): Value {
    String(text)
  }

  function RunTree(r: WireRun): Value {
    Object([Member(KEY_O, IdentityTree(r.origin)),
            Member(KEY_K, LinkTree(r.link)),
            Member(KEY_C, String(r.content)),
            Member(KEY_N, NumberTree(r.length))]
           + if r.marker then [Member(KEY_M, NumberTree(1))] else [])
  }

  function Trees<T>(xs: seq<T>, f: T -> Value): (vs: seq<Value>)
    ensures |vs| == |xs|
  {
    if xs == [] then [] else Trees(xs[..|xs| - 1], f) + [f(xs[|xs| - 1])]
  }

  function AllocationTree(timestamp: Identity, count: nat): Value
    requires count <= timestamp.counter
  {
    Array([NumberTree(timestamp.counter - count + 1), NumberTree(count)])
  }

  /** How many counters the operation reserves. */
  function Reserved(o: WireOperation): nat {
    if o.WireEdit? then TotalLength(o.inserted) + 1 else 1
  }

  function HeadMembers(o: WireOperation): seq<Member>
    requires Reserved(o) <= o.timestamp.counter
  {
    [Member(KEY_T, String(if o.WireEdit? then TAG_EDIT else TAG_UNDO)),
     Member(KEY_TS, IdentityTree(o.timestamp)),
     Member(KEY_V, Object(FrontierMembers(o.version))),
     Member(KEY_A, AllocationTree(o.timestamp, Reserved(o)))]
  }

  function MarkerMembers(o: WireOperation): seq<Member>
    requires o.WireEdit?
  {
    if o.markerEdit then [Member(KEY_MARKER, NumberTree(1))] else []
  }

  function EditMembers(o: WireOperation): seq<Member>
    requires o.WireEdit?
  {
    [Member(KEY_DID, IdentityTree(o.deletionId)),
     Member(KEY_R, Array(Trees(o.ranges, SpanTree))),
     Member(KEY_NT, Array(Trees(o.newText, TextTree))),
     Member(KEY_IF, Array(Trees(o.inserted, RunTree))),
     Member(KEY_DR, Array(Trees(o.deleted, CountedTree)))]
  }

  function Members(o: WireOperation): seq<Member>
    requires Reserved(o) <= o.timestamp.counter
  {
    if o.WireEdit? then HeadMembers(o) + MarkerMembers(o) + EditMembers(o)
    else HeadMembers(o) + [Member(KEY_C, Array(Trees(o.counts, CountedTree)))]
  }

  // ---- What a tree means ----

  function NumberOfTree(v: Value): Option<nat> {
    if v.String? && |v.text| == 16 then ReadHex(v.text) else None
  }

  function NarrowOfTree(v: Value): Option<Word32> {
    var n := NumberOfTree(v);
    if n.Some? && n.value < U32 then Some(n.value) else None
  }

  function ActorOfText(text: seq<Byte>): Option<ActorId> {
    if |text| != 32 then None
    else
      var n := ReadHex(text);
      if n.Some? && 0 < n.value < U128 then Some(n.value) else None
  }

  function IdentityOfTree(v: Value): Option<Identity> {
    if !v.Array? || |v.elements| != 2 || !v.elements[0].String? then None
    else
      var actor, counter := ActorOfText(v.elements[0].text), NumberOfTree(v.elements[1]);
      if actor.Some? && counter.Some? && Issuable(Identity(actor.value, counter.value)) then
        Some(Identity(actor.value, counter.value))
      else None
  }

  function OptionalOfTree(v: Value): Option<Option<Identity>> {
    if v == Array([]) then Some(None)
    else
      var id := IdentityOfTree(v);
      if id.Some? then Some(Some(id.value)) else None
  }

  function Find(ms: seq<Member>, key: seq<Byte>): Option<Value> {
    if ms == [] then None else if ms[0].key == key then Some(ms[0].value) else Find(ms[1..], key)
  }

  /** An object with exactly these fields, in whatever order. */
  predicate Schema(v: Value, keys: seq<seq<Byte>>) {
    v.Object? && |v.members| == |keys| && forall i :: 0 <= i < |keys| ==> Find(v.members, keys[i]).Some?
  }

  function Field(v: Value, key: seq<Byte>): Value {
    if v.Object? && Find(v.members, key).Some? then Find(v.members, key).value else Null
  }

  function LinkOfTree(v: Value): Option<Link> {
    if !Schema(v, [KEY_P, KEY_S, KEY_R]) then None
    else
      var parent, side, right :=
        OptionalOfTree(Field(v, KEY_P)), NumberOfTree(Field(v, KEY_S)), OptionalOfTree(Field(v, KEY_R));
      if parent.Some? && side.Some? && side.value <= 1 && right.Some? then
        Some(Link(parent.value, if side.value == 0 then Left else Right, right.value))
      else None
  }

  /** Observing one more pair in a version vector's array. */
  function Record(ps: seq<Pair>, p: Pair): seq<Pair> {
    if ps == [] then [p]
    else
      var last := ps[|ps| - 1];
      if last.actor < p.actor then ps + [p]
      else if last.actor == p.actor then (if last.counter < p.counter then ps[|ps| - 1 := p] else ps)
      else Record(ps[..|ps| - 1], p) + [last]
  }

  function FrontierOf(ms: seq<Member>): Option<seq<Pair>> {
    if ms == [] then Some([])
    else
      var ps, last := FrontierOf(ms[..|ms| - 1]), ms[|ms| - 1];
      var actor, head := ActorOfText(last.key), NumberOfTree(last.value);
      if ps.Some? && actor.Some? && head.Some? && Issuable(Identity(actor.value, head.value)) then
        Some(Record(ps.value, Pair(actor.value, head.value)))
      else None
  }

  function FrontierOfTree(v: Value): Option<seq<Pair>> {
    if v.Object? && |v.members| <= MAX_FRONTIER then FrontierOf(v.members) else None
  }

  function SpanOfTree(v: Value): Option<Span> {
    if !v.Array? || |v.elements| != 2 then None
    else
      var start, end := NarrowOfTree(v.elements[0]), NarrowOfTree(v.elements[1]);
      if start.Some? && end.Some? then Some(Span(start.value, end.value)) else None
  }

  function CountedOfTree(v: Value): Option<Counted> {
    if !v.Array? || |v.elements| != 2 then None
    else
      var id, count := IdentityOfTree(v.elements[0]), NarrowOfTree(v.elements[1]);
      if id.Some? && count.Some? then Some(Counted(id.value, count.value)) else None
  }

  function TextOfTree(v: Value): Option<seq<Byte>> {
    if v.String? then Some(v.text) else None
  }

  function RunOfTree(v: Value, marker: bool): Option<WireRun> {
    if !Schema(v, if marker then [KEY_O, KEY_K, KEY_C, KEY_N, KEY_M] else [KEY_O, KEY_K, KEY_C, KEY_N]) then None
    else if marker && NumberOfTree(Field(v, KEY_M)) != Some(1) then None
    else
      var origin, link := IdentityOfTree(Field(v, KEY_O)), LinkOfTree(Field(v, KEY_K));
      var content, length := TextOfTree(Field(v, KEY_C)), NarrowOfTree(Field(v, KEY_N));
      if origin.Some? && link.Some? && content.Some? && length.Some? then
        Some(WireRun(origin.value, link.value, content.value, length.value, marker))
      else None
  }

  function RunReader(marker: bool): Value -> Option<WireRun> {
    v => RunOfTree(v, marker)
  }

  function ReadAll<T>(vs: seq<Value>, g: Value -> Option<T>): Option<seq<T>> {
    if vs == [] then Some([])
    else
      var xs, last := ReadAll(vs[..|vs| - 1], g), g(vs[|vs| - 1]);
      if xs.Some? && last.Some? then Some(xs.value + [last.value]) else None
  }

  function ReadArray<T>(v: Value, g: Value -> Option<T>): Option<seq<T>> {
    if v.Array? then ReadAll(v.elements, g) else None
  }

  /** The declared interval is the one the payload and the frontier imply. */
  predicate AllocationAgrees(v: Value, timestamp: Identity, prior: seq<Pair>, count: nat) {
    && v.Array? && |v.elements| == 2
    && Issuable(timestamp) && 0 < count <= timestamp.counter
    && NumberOfTree(v.elements[0]) == Some(timestamp.counter - count + 1)
    && NumberOfTree(v.elements[1]) == Some(count)
    && Head(prior, timestamp.actor) < timestamp.counter - count + 1
  }

  /** Every target is older than the operation. */
  predicate TargetsOlder(cs: seq<Counted>, timestamp: Identity) {
    forall i :: 0 <= i < |cs| ==> IdLess(cs[i].id, timestamp)
  }

  const EDIT_KEYS: seq<seq<Byte>> := [KEY_T, KEY_TS, KEY_V, KEY_A, KEY_DID, KEY_R, KEY_NT, KEY_IF, KEY_DR]
  const MARKER_KEYS: seq<seq<Byte>> :=
    [KEY_T, KEY_TS, KEY_V, KEY_A, KEY_DID, KEY_R, KEY_NT, KEY_IF, KEY_DR, KEY_MARKER]
  const UNDO_KEYS: seq<seq<Byte>> := [KEY_T, KEY_TS, KEY_V, KEY_A, KEY_C]

  function UndoOfTree(root: Value): Option<WireOperation> {
    if !Schema(root, UNDO_KEYS) then None
    else
      var timestamp, version := IdentityOfTree(Field(root, KEY_TS)), FrontierOfTree(Field(root, KEY_V));
      var counts := ReadArray(Field(root, KEY_C), CountedOfTree);
      if timestamp.None? || version.None? || counts.None? || |counts.value| > MAX_TARGETS
         || !TargetsOlder(counts.value, timestamp.value)
         || !AllocationAgrees(Field(root, KEY_A), timestamp.value, version.value, 1) then None
      else Some(WireUndo(timestamp.value, version.value, counts.value))
  }

  /** The fields of an edit, before its allocation is looked at. */
  function EditFieldsOfTree(root: Value, marker: bool): Option<WireOperation> {
    if !Schema(root, if marker then MARKER_KEYS else EDIT_KEYS) then None
    else if marker && NumberOfTree(Field(root, KEY_MARKER)) != Some(1) then None
    else
      var timestamp, version := IdentityOfTree(Field(root, KEY_TS)), FrontierOfTree(Field(root, KEY_V));
      var deletionId, ranges := IdentityOfTree(Field(root, KEY_DID)), ReadArray(Field(root, KEY_R), SpanOfTree);
      var newText, inserted :=
        ReadArray(Field(root, KEY_NT), TextOfTree), ReadArray(Field(root, KEY_IF), RunReader(marker));
      var deleted := ReadArray(Field(root, KEY_DR), CountedOfTree);
      if timestamp.None? || version.None? || deletionId.None? || ranges.None? || newText.None? || inserted.None?
         || deleted.None? then None
      else
        Some(WireEdit(timestamp.value, version.value, deletionId.value, marker, ranges.value, newText.value,
                      inserted.value, deleted.value))
  }

  ghost function EditOfTree(root: Value, marker: bool): Option<WireOperation> {
    var o := EditFieldsOfTree(root, marker);
    if o.None? || !Allocates(o.value)
       || !AllocationAgrees(Field(root, KEY_A), o.value.timestamp, o.value.version, Reserved(o.value)) then None
    else o
  }

  datatype Refusal = Malformed | UnknownFormat | UnsupportedVersion | UnsupportedOperation

  datatype Outcome<+T> = Accepted(value: T) | Refused(why: Refusal)

  const MAGIC: seq<Byte> := [0x43, 0x54, 0x42, 0x4F]
  const VERSION_PLAIN: seq<Byte> := [0x30, 0x30, 0x30, 0x32]
  const VERSION_MARKER: seq<Byte> := [0x30, 0x30, 0x30, 0x33]

  /** The payload after a header of this version. */
  function Payload(bytes: seq<Byte>, version: seq<Byte>): Outcome<seq<Byte>> {
    if |bytes| > FRAME_LIMIT then Refused(Malformed)
    else if |bytes| < 4 then Refused(if bytes != [] && bytes <= MAGIC then Malformed else UnknownFormat)
    else if bytes[..4] != MAGIC then Refused(UnknownFormat)
    else if |bytes| < 9 || bytes[8] != COLON || ReadHex(bytes[4..8]).None? then Refused(Malformed)
    else if bytes[4..8] != version then Refused(UnsupportedVersion)
    else Accepted(bytes[9..])
  }

  predicate ClaimsMarker(bytes: seq<Byte>) {
    |bytes| >= 8 && bytes[4..8] == VERSION_MARKER
  }

  /** The object a frame of this version carries. */
  ghost function Root(bytes: seq<Byte>, version: seq<Byte>): Outcome<Value> {
    var payload := Payload(bytes, version);
    if payload.Refused? then Refused(payload.why)
    else
      var root := Document(payload.value);
      if root.None? || !root.value.Object? then Refused(Malformed) else Accepted(root.value)
  }

  function VersionFor(marker: bool): seq<Byte> {
    if marker then VERSION_MARKER else VERSION_PLAIN
  }

  /** The meaning of a byte string as an operation. */
  ghost function Meaning(bytes: seq<Byte>): Outcome<WireOperation> {
    var marker := ClaimsMarker(bytes);
    var root := Root(bytes, VersionFor(marker));
    if root.Refused? then Refused(root.why)
    else if !Field(root.value, KEY_T).String? then Refused(Malformed)
    else
      var tag := Field(root.value, KEY_T).text;
      if tag != TAG_EDIT && tag != TAG_UNDO then Refused(UnsupportedOperation)
      else if tag == TAG_UNDO && marker then Refused(Malformed)
      else
        var o := if tag == TAG_UNDO then UndoOfTree(root.value) else EditOfTree(root.value, marker);
        if o.None? then Refused(Malformed) else Accepted(o.value)
  }

  // ---- What the writer accepts ----

  predicate FrontierFits(ps: seq<Pair>) {
    |ps| <= MAX_FRONTIER && forall i :: 0 <= i < |ps| ==> Issuable(Identity(ps[i].actor, ps[i].counter))
  }

  predicate LinkIssuable(link: Link) {
    && (link.parent.Some? ==> Issuable(link.parent.value))
    && (link.rightOrigin.Some? ==> Issuable(link.rightOrigin.value))
  }

  predicate RunWritable(r: WireRun) {
    Issuable(r.origin) && LinkIssuable(r.link) && |r.content| <= MAX_TEXT
  }

  predicate CountsIssuable(cs: seq<Counted>) {
    forall i :: 0 <= i < |cs| ==> Issuable(cs[i].id)
  }

  /** The operation itself is in order; only the size of its frame is still open. */
  ghost predicate InOrder(o: WireOperation) {
    && Issuable(o.timestamp) && FrontierFits(o.version)
    && Head(o.version, o.timestamp.actor) < o.timestamp.counter - Reserved(o) + 1
    && Reserved(o) <= o.timestamp.counter
    && if o.WireEdit? then
         && Allocates(o)
         && (forall i :: 0 <= i < |o.newText| ==> |o.newText[i]| <= MAX_TEXT)
         && (forall i :: 0 <= i < |o.inserted| ==> RunWritable(o.inserted[i]))
         && CountsIssuable(o.deleted)
       else |o.counts| <= MAX_TARGETS && CountsIssuable(o.counts) && TargetsOlder(o.counts, o.timestamp)
  }

  function HeaderOf(o: WireOperation): seq<Byte> {
    MAGIC + VersionFor(o.WireEdit? && o.markerEdit) + [COLON]
  }

  function Frame(o: WireOperation): seq<Byte>
    requires Reserved(o) <= o.timestamp.counter
  {
    HeaderOf(o) + Print(Object(Members(o)))
  }

  /** The operation, and the frame, within every limit. */
  ghost predicate Encodable(o: WireOperation) {
    && InOrder(o)
    && |Frame(o)| <= FRAME_LIMIT
    && Spend(Object(Members(o)), 0, MAX_ELEMENTS).Some?
  }
}
