/** The operation reader: fields taken from a parsed tree, the first failure
    latched and never forgotten. */
module OperationDecoder {
  import opened Ids
  import opened Bytes
  import opened Clock
  import opened FugueOrder
  import opened WireOperations
  import opened Json
  import opened OperationFrames
  import opened OperationCodec

  /** The reader has failed exactly if it had or the tree means nothing, and
      otherwise returned what the tree means. */
  predicate Latched<T(==)>(was: bool, now: bool, meaning: Option<T>, value: T) {
    (now <==> was || meaning.None?) && (!now ==> meaning == Some(value))
  }

  lemma {:induction false} ReadAllStep<T>(vs: seq<Value>, g: Value -> Option<T>, i: nat)
    requires i < |vs|
    ensures ReadAll(vs[..0], g) == Some([])
    ensures ReadAll(vs[..i + 1], g)
         == (if ReadAll(vs[..i], g).Some? && g(vs[i]).Some? then Some(ReadAll(vs[..i], g).value + [g(vs[i]).value]) else None)
  {
    assert vs[..i + 1][..i] == vs[..i];
  }

  class Reader {
    var failed: bool

    constructor ()
      ensures !failed
    {
      failed := false;
    }

    method Fail()
      modifies this
      ensures failed
    {
      failed := true;
    }

    method Number(v: Value) returns (n: nat)
      modifies this
      ensures Latched(old(failed), failed, NumberOfTree(v), n)
    {
      n := 0;
      if !v.String? || |v.text| != 16 {
        Fail();
        return;
      }
      var i := 0;
      while i < 16
        invariant i <= 16 && failed == old(failed)
        invariant ReadHex(v.text[..i]) == Some(n)
      {
        var digit := LowerHex(v.text[i]);
        HexStep(v.text, i);
        if digit.None? {
          Fail();
          return;
        }
        n := n * 16 + digit.value;
        i := i + 1;
      }
      assert v.text[..i] == v.text;
    }

    method Narrow(v: Value) returns (n: Word32)
      modifies this
      ensures Latched(old(failed), failed, NarrowOfTree(v), n)
    {
      hide NumberOfTree;
      var wide := Number(v);
      if wide >= U32 {
        Fail();
        return 0;
      }
      n := wide;
    }

    method ReadIdentity(v: Value) returns (id: Identity)
      modifies this
      ensures Latched(old(failed), failed, IdentityOfTree(v), id)
    {
      hide NumberOfTree, ActorOfText;
      id := Identity(0, 0);
      if !v.Array? || |v.elements| != 2 {
        Fail();
        return;
      }
      var text := v.elements[0];
      var actor := if text.String? then ActorOfText(text.text) else None;
      if actor.None? {
        Fail();
      }
      var counter := Number(v.elements[1]);
      id := Identity(if actor.Some? then actor.value else 0, counter);
      if !failed && !Issuable(id) {
        Fail();
      }
    }

    method ReadOptional(v: Value) returns (id: Option<Identity>)
      modifies this
      ensures Latched(old(failed), failed, OptionalOfTree(v), id)
    {
      if v.Array? && |v.elements| == 0 {
        return None;
      }
      var some := ReadIdentity(v);
      return Some(some);
    }

    method ReadSchema(v: Value, keys: seq<seq<Byte>>) returns (ok: bool)
      modifies this
      ensures ok <==> Schema(v, keys)
      ensures failed == (old(failed) || !ok)
    {
      if !v.Object? || |v.members| != |keys| {
        Fail();
        return false;
      }
      var i := 0;
      while i < |keys|
        invariant i <= |keys| && failed == old(failed)
        invariant forall k :: 0 <= k < i ==> Find(v.members, keys[k]).Some?
      {
        if Find(v.members, keys[i]).None? {
          Fail();
          return false;
        }
        i := i + 1;
      }
      return true;
    }

    method ReadLink(v: Value) returns (link: Link)
      modifies this
      ensures Latched(old(failed), failed, LinkOfTree(v), link)
    {
      hide Find, OptionalOfTree, NumberOfTree;
      link := Link(None, Left, None);
      var ok := ReadSchema(v, [KEY_P, KEY_S, KEY_R]);
      if !ok {
        return;
      }
      var parent := ReadOptional(Field(v, KEY_P));
      var side := Number(Field(v, KEY_S));
      if side > 1 {
        Fail();
        return;
      }
      var right := ReadOptional(Field(v, KEY_R));
      link := Link(parent, if side == 0 then Left else Right, right);
    }

    method ReadFrontier(v: Value) returns (ps: seq<Pair>)
      modifies this
      ensures Latched(old(failed), failed, FrontierOfTree(v), ps)
    {
      hide NumberOfTree, ActorOfText, Record, Issuable;
      ps := [];
      if !v.Object? || |v.members| > MAX_FRONTIER {
        Fail();
        return;
      }
      var ms := v.members;
      var i := 0;
      while i < |ms|
        invariant i <= |ms|
        invariant Latched(old(failed), failed, FrontierOf(ms[..i]), ps)
      {
        assert ms[..i + 1][..i] == ms[..i];
        var actor := ActorOfText(ms[i].key);
        if actor.None? {
          Fail();
        } else {
          var head := Number(ms[i].value);
          if !failed && !Issuable(Identity(actor.value, head)) {
            Fail();
          }
          if !failed {
            ps := Record(ps, Pair(actor.value, head));
          }
        }
        i := i + 1;
      }
      assert ms[..i] == ms;
    }

    method ReadSpan(v: Value) returns (span: Span)
      modifies this
      ensures Latched(old(failed), failed, SpanOfTree(v), span)
    {
      hide NarrowOfTree;
      span := Span(0, 0);
      if !v.Array? || |v.elements| != 2 {
        Fail();
        return;
      }
      var start := Narrow(v.elements[0]);
      var end := Narrow(v.elements[1]);
      span := Span(start, end);
    }

    method ReadCounted(v: Value) returns (c: Counted)
      modifies this
      ensures Latched(old(failed), failed, CountedOfTree(v), c)
    {
      hide NarrowOfTree, IdentityOfTree;
      c := Counted(Identity(0, 0), 0);
      if !v.Array? || |v.elements| != 2 {
        Fail();
        return;
      }
      var id := ReadIdentity(v.elements[0]);
      var count := Narrow(v.elements[1]);
      c := Counted(id, count);
    }

    method ReadText(v: Value) returns (text: seq<Byte>)
      modifies this
      ensures Latched(old(failed), failed, TextOfTree(v), text)
    {
      if !v.String? {
        Fail();
        return [];
      }
      return v.text;
    }

    method ReadRun(v: Value, marker: bool) returns (r: WireRun)
      modifies this
      ensures Latched(old(failed), failed, RunOfTree(v, marker), r)
    {
      hide Find, NumberOfTree, NarrowOfTree, IdentityOfTree, LinkOfTree, Schema;
      r := WireRun(Identity(0, 0), Link(None, Left, None), [], 0, marker);
      var ok := ReadSchema(v, if marker then [KEY_O, KEY_K, KEY_C, KEY_N, KEY_M] else [KEY_O, KEY_K, KEY_C, KEY_N]);
      if !ok {
        return;
      }
      if marker {
        var tag := Number(Field(v, KEY_M));
        if tag != 1 {
          Fail();
          return;
        }
      }
      var origin := ReadIdentity(Field(v, KEY_O));
      var link := ReadLink(Field(v, KEY_K));
      var content := ReadText(Field(v, KEY_C));
      var length := Narrow(Field(v, KEY_N));
      r := WireRun(origin, link, content, length, marker);
    }

    method ReadSpans(v: Value) returns (xs: seq<Span>)
      modifies this
      ensures Latched(old(failed), failed, ReadArray(v, SpanOfTree), xs)
    {
      hide ReadAll, SpanOfTree;
      xs := [];
      if !v.Array? {
        Fail();
        return;
      }
      NothingRead(v.elements, SpanOfTree);
      var i := 0;
      while i < |v.elements|
        invariant i <= |v.elements|
        invariant Latched(old(failed), failed, ReadAll(v.elements[..i], SpanOfTree), xs)
      {
        ReadAllStep(v.elements, SpanOfTree, i);
        var x := ReadSpan(v.elements[i]);
        xs := xs + [x];
        i := i + 1;
      }
      assert v.elements[..i] == v.elements;
    }

    method ReadTexts(v: Value) returns (xs: seq<seq<Byte>>)
      modifies this
      ensures Latched(old(failed), failed, ReadArray(v, TextOfTree), xs)
    {
      hide ReadAll, TextOfTree;
      xs := [];
      if !v.Array? {
        Fail();
        return;
      }
      NothingRead(v.elements, TextOfTree);
      var i := 0;
      while i < |v.elements|
        invariant i <= |v.elements|
        invariant Latched(old(failed), failed, ReadAll(v.elements[..i], TextOfTree), xs)
      {
        ReadAllStep(v.elements, TextOfTree, i);
        var x := ReadText(v.elements[i]);
        xs := xs + [x];
        i := i + 1;
      }
      assert v.elements[..i] == v.elements;
    }

    method ReadCounts(v: Value) returns (xs: seq<Counted>)
      modifies this
      ensures Latched(old(failed), failed, ReadArray(v, CountedOfTree), xs)
    {
      hide ReadAll, CountedOfTree;
      xs := [];
      if !v.Array? {
        Fail();
        return;
      }
      NothingRead(v.elements, CountedOfTree);
      var i := 0;
      while i < |v.elements|
        invariant i <= |v.elements|
        invariant Latched(old(failed), failed, ReadAll(v.elements[..i], CountedOfTree), xs)
      {
        ReadAllStep(v.elements, CountedOfTree, i);
        var x := ReadCounted(v.elements[i]);
        xs := xs + [x];
        i := i + 1;
      }
      assert v.elements[..i] == v.elements;
    }

    method ReadRuns(v: Value, marker: bool) returns (xs: seq<WireRun>)
      modifies this
      ensures Latched(old(failed), failed, ReadArray(v, RunReader(marker)), xs)
    {
      hide ReadAll, RunOfTree;
      xs := [];
      if !v.Array? {
        Fail();
        return;
      }
      NothingRead(v.elements, RunReader(marker));
      var i := 0;
      while i < |v.elements|
        invariant i <= |v.elements|
        invariant Latched(old(failed), failed, ReadAll(v.elements[..i], RunReader(marker)), xs)
      {
        ReadAllStep(v.elements, RunReader(marker), i);
        var x := ReadRun(v.elements[i], marker);
        assert RunReader(marker)(v.elements[i]) == RunOfTree(v.elements[i], marker);
        xs := xs + [x];
        i := i + 1;
      }
      assert v.elements[..i] == v.elements;
    }

    /** The targets of an undo: not too many, each older than the undo. */
    method ReadTargets(v: Value, timestamp: Identity) returns (xs: seq<Counted>)
      modifies this
      ensures (failed <==> old(failed) || ReadArray(v, CountedOfTree).None? || |xs| > MAX_TARGETS
                           || !TargetsOlder(xs, timestamp))
      ensures !old(failed) && ReadArray(v, CountedOfTree).Some? ==> ReadArray(v, CountedOfTree) == Some(xs)
    {
      hide ReadAll, CountedOfTree;
      xs := ReadCounts(v);
      if |xs| > MAX_TARGETS {
        Fail();
      }
      var i := 0;
      ghost var before := failed;
      while i < |xs|
        invariant i <= |xs|
        invariant failed <==> before || exists k :: 0 <= k < i && !IdLess(xs[k].id, timestamp)
      {
        if !IdLess(xs[i].id, timestamp) {
          Fail();
        }
        i := i + 1;
      }
    }

    method CheckAllocation(v: Value, timestamp: Identity, prior: seq<Pair>, count: nat)
      requires !failed
      modifies this
      ensures !failed <==> AllocationAgrees(v, timestamp, prior, count)
    {
      hide NumberOfTree;
      if !v.Array? || |v.elements| != 2 {
        Fail();
        return;
      }
      var first := Number(v.elements[0]);
      var declared := Number(v.elements[1]);
      if !Issuable(timestamp) {
        Fail();
        return;
      }
      if count == 0 || count > timestamp.counter || declared != count || first != timestamp.counter - count + 1
         || Head(prior, timestamp.actor) >= first {
        Fail();
      }
    }
  }

  lemma {:induction false} NothingRead<T>(vs: seq<Value>, g: Value -> Option<T>)
    ensures ReadAll(vs[..0], g) == Some([])
  {
  }

  lemma {:induction false} HexStep(s: seq<Byte>, i: nat)
    requires i < |s|
    ensures ReadHex(s[..i + 1])
         == (if ReadHex(s[..i]).None? || LowerHex(s[i]).None? then None
             else Some(ReadHex(s[..i]).value * 16 + LowerHex(s[i]).value))
    ensures LowerHex(s[i]).None? ==> ReadHex(s).None?
  {
    assert s[..i + 1][..i] == s[..i];
    if LowerHex(s[i]).None? {
      HexFails(s, i);
    }
  }

  lemma {:induction false} HexFails(s: seq<Byte>, i: nat)
    requires i < |s| && LowerHex(s[i]).None?
    ensures ReadHex(s).None?
  {
    if i < |s| - 1 {
      HexFails(s[..|s| - 1], i);
    }
  }

  // ---- Decoding ----

  method DecodeUndo(root: Value) returns (r: Option<WireOperation>)
    ensures r == UndoOfTree(root)
  {
    hide Find, IdentityOfTree, FrontierOfTree, ReadArray, AllocationAgrees, Schema, TargetsOlder;
    var reader := new Reader();
    var ok := reader.ReadSchema(root, UNDO_KEYS);
    if !ok {
      return None;
    }
    var timestamp := reader.ReadIdentity(Field(root, KEY_TS));
    var version := reader.ReadFrontier(Field(root, KEY_V));
    var counts := reader.ReadTargets(Field(root, KEY_C), timestamp);
    if reader.failed {
      return None;
    }
    reader.CheckAllocation(Field(root, KEY_A), timestamp, version, 1);
    if reader.failed {
      return None;
    }
    return Some(WireUndo(timestamp, version, counts));
  }

  method DecodeEditFields(root: Value, marker: bool) returns (r: Option<WireOperation>)
    ensures r == EditFieldsOfTree(root, marker)
    ensures r.Some? ==> r.value.WireEdit?
  {
    hide Find, IdentityOfTree, FrontierOfTree, ReadArray, NumberOfTree, Schema, RunReader;
    var reader := new Reader();
    var ok := reader.ReadSchema(root, if marker then MARKER_KEYS else EDIT_KEYS);
    if !ok {
      return None;
    }
    if marker {
      var tag := reader.Number(Field(root, KEY_MARKER));
      if tag != 1 {
        return None;
      }
    }
    var timestamp := reader.ReadIdentity(Field(root, KEY_TS));
    var version := reader.ReadFrontier(Field(root, KEY_V));
    var deletionId := reader.ReadIdentity(Field(root, KEY_DID));
    var ranges := reader.ReadSpans(Field(root, KEY_R));
    var newText := reader.ReadTexts(Field(root, KEY_NT));
    var inserted := reader.ReadRuns(Field(root, KEY_IF), marker);
    var deleted := reader.ReadCounts(Field(root, KEY_DR));
    if reader.failed {
      return None;
    }
    return Some(WireEdit(timestamp, version, deletionId, marker, ranges, newText, inserted, deleted));
  }

  method DecodeEdit(root: Value, marker: bool) returns (r: Option<WireOperation>)
    ensures r == EditOfTree(root, marker)
  {
    hide EditFieldsOfTree, Allocates, AllocationAgrees, Find;
    var o := DecodeEditFields(root, marker);
    if o.None? {
      return None;
    }
    var allocation := EditAllocation(o.value);
    if allocation.None? {
      return None;
    }
    var reader := new Reader();
    reader.CheckAllocation(Field(root, KEY_A), o.value.timestamp, o.value.version, allocation.value as nat);
    if reader.failed {
      return None;
    }
    return o;
  }

  /** Decoding finds in a byte string what `Meaning` says it means, so the round
      trip laws speak of it. */
  method DecodeOperation(bytes: seq<Byte>) returns (r: Outcome<WireOperation>)
    ensures r == Meaning(bytes)
  {
    hide Root, UndoOfTree, EditOfTree, Find;
    var marker := ClaimsMarker(bytes);
    var root := ReadFrame(bytes, VersionFor(marker));
    if root.Refused? {
      return Refused(root.why);
    }
    var tag := Field(root.value, KEY_T);
    if !tag.String? {
      return Refused(Malformed);
    }
    if tag.text != TAG_EDIT && tag.text != TAG_UNDO {
      return Refused(UnsupportedOperation);
    }
    if tag.text == TAG_UNDO && marker {
      return Refused(Malformed);
    }
    var o: Option<WireOperation>;
    if tag.text == TAG_UNDO {
      o := DecodeUndo(root.value);
    } else {
      o := DecodeEdit(root.value, marker);
    }
    if o.None? {
      return Refused(Malformed);
    }
    return Accepted(o.value);
  }
}
