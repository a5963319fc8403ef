/** The operation writer and reader: bytes appended up to a limit, fields read
    with the first failure latched. */
module OperationCodec {
  import opened Ids
  import opened Bytes
  import opened Clock
  import opened FugueOrder
  import opened WireOperations
  import opened Utf
  import opened Json
  import opened JsonLaws
  import opened JsonReaders
  import opened OperationFrames
  import opened OperationLaws

  // ---- The writer ----

  datatype Output = Output(bytes: seq<Byte>, failed: bool)

  /** From one state of the writer to another: it has failed exactly if it had,
      or the value may not be written, or the text does not fit. */
  predicate Wrote(s: Output, t: Output, text: seq<Byte>, allowed: bool) {
    && (t.failed <==> s.failed || !allowed || |s.bytes| + |text| > FRAME_LIMIT)
    && (!t.failed ==> t.bytes == s.bytes + text)
  }

  lemma {:induction false} WroteBoth(s: Output, t: Output, u: Output, x: seq<Byte>, y: seq<Byte>, a: bool, b: bool)
    requires Wrote(s, t, x, a) && Wrote(t, u, y, b)
    ensures Wrote(s, u, x + y, a && b)
  {
    if !t.failed && !u.failed {
      AppendThree(s.bytes, x, y);
    }
  }

  lemma {:induction false} PrintPair(a: Value, b: Value)
    ensures Print(Array([a, b])) == [OPEN_ARRAY] + Print(a) + [COMMA] + Print(b) + [CLOSE_ARRAY]
  {
    assert [a, b][1..] == [b];
    assert PrintAll([b]) == Print(b) + [];
    assert PrintAll([a, b]) == Print(a) + ([COMMA] + Print(b));
  }

  lemma {:induction false} PrintAllGrows(vs: seq<Value>, v: Value)
    ensures PrintAll(vs + [v]) == (if vs == [] then [] else PrintAll(vs) + [COMMA]) + Print(v)
  {
    hide Print;
    if vs == [] {
      assert vs + [v] == [v];
      assert PrintAll([v]) == Print(v) + [];
    } else {
      var out := vs + [v];
      assert out[0] == vs[0] && out[1..] == vs[1..] + [v];
      PrintAllGrows(vs[1..], v);
      if |vs| == 1 {
        assert vs[1..] == [];
        assert PrintAll(vs) == Print(vs[0]) + [];
        AppendThree(Print(vs[0]), [COMMA], Print(v));
      } else {
        AppendFour(Print(vs[0]), [COMMA], PrintAll(vs[1..]) + [COMMA], Print(v));
        AppendFour(Print(vs[0]), [COMMA], PrintAll(vs[1..]), [COMMA] + Print(v));
        AppendThree(PrintAll(vs[1..]), [COMMA], Print(v));
        AppendThree(PrintAll(vs), [COMMA], Print(v));
        AppendThree(Print(vs[0]), [COMMA], PrintAll(vs[1..]));
      }
    }
  }

  lemma {:induction false} PrintMembersGrows(ms: seq<Member>, m: Member)
    ensures PrintMembers(ms + [m]) == (if ms == [] then [] else PrintMembers(ms) + [COMMA]) + PrintMember(m)
  {
    hide PrintMember;
    if ms == [] {
      assert ms + [m] == [m];
      assert PrintMembers([m]) == PrintMember(m) + [];
    } else {
      var out := ms + [m];
      assert out[0] == ms[0] && out[1..] == ms[1..] + [m];
      PrintMembersGrows(ms[1..], m);
      if |ms| == 1 {
        assert ms[1..] == [];
        assert PrintMembers(ms) == PrintMember(ms[0]) + [];
        AppendThree(PrintMember(ms[0]), [COMMA], PrintMember(m));
      } else {
        AppendFour(PrintMember(ms[0]), [COMMA], PrintMembers(ms[1..]), [COMMA] + PrintMember(m));
        AppendThree(PrintMembers(ms[1..]), [COMMA], PrintMember(m));
        AppendThree(PrintMembers(ms), [COMMA], PrintMember(m));
        AppendThree(PrintMember(ms[0]), [COMMA], PrintMembers(ms[1..]));
      }
    }
  }

  /** A comma, a key, its colon and a value after the members so far. */
  lemma {:induction false} FieldWritten(s: Output, t: Output, u: Output, w: Output, ms: seq<Member>, key: seq<Byte>,
                                        value: Value, a: bool, b: bool)
    requires ms != []
    requires Wrote(s, t, [OPEN_OBJECT] + PrintMembers(ms), a)
    requires Wrote(t, u, Label(key), true)
    requires Wrote(u, w, Print(value), b)
    ensures Wrote(s, w, [OPEN_OBJECT] + PrintMembers(ms + [Member(key, value)]), a && b)
  {
    hide Wrote, Print, PrintMembers, Quote;
    WroteBoth(s, t, u, [OPEN_OBJECT] + PrintMembers(ms), Label(key), a, true);
    WroteBoth(s, u, w, [OPEN_OBJECT] + PrintMembers(ms) + Label(key), Print(value), a, b);
    PrintMembersGrows(ms, Member(key, value));
    FieldText(PrintMembers(ms), Quote(key), Print(value));
  }

  lemma FieldText(ms: seq<Byte>, key: seq<Byte>, value: seq<Byte>)
    ensures [OPEN_OBJECT] + ms + ([COMMA] + (key + [COLON])) + value == [OPEN_OBJECT] + (ms + [COMMA] + (key + ([COLON] + value)))
  {
  }

  function Label(key: seq<Byte>): seq<Byte> {
    [COMMA] + (Quote(key) + [COLON])
  }

  class Writer {
    var bytes: seq<Byte>
    var failed: bool

    ghost predicate Valid()
      reads this
    {
      !failed ==> |bytes| <= FRAME_LIMIT
    }

    ghost function Now(): Output
      reads this
    {
      Output(bytes, failed)
    }

    constructor ()
      ensures Valid() && Now() == Output([], false)
    {
      bytes := [];
      failed := false;
    }

    method Fail()
      modifies this
      ensures failed && bytes == old(bytes)
    {
      failed := true;
    }

    method Raw(text: seq<Byte>)
      requires Valid()
      modifies this
      ensures Valid() && Wrote(old(Now()), Now(), text, true)
    {
      if failed {
        return;
      }
      if |text| > FRAME_LIMIT - |bytes| {
        Fail();
        return;
      }
      bytes := bytes + text;
    }

    method Text(value: seq<Byte>)
      requires Valid()
      modifies this
      ensures Valid() && Wrote(old(Now()), Now(), Quote(value), |value| <= MAX_TEXT && IsUtf8(value))
    {
      hide EscapeAll, IsUtf8, Wrote, Escaped;
      ghost var start := Now();
      if failed {
        FailedStays(start, Quote(value), |value| <= MAX_TEXT && IsUtf8(value));
        return;
      }
      if |value| > MAX_TEXT {
        Fail();
        FailedNow(start, Now(), Quote(value));
        return;
      }
      var error := ValidateUtf8(value);
      if error.Some? {
        Fail();
        FailedNow(start, Now(), Quote(value));
        return;
      }
      Raw([QUOTE]);
      var i := 0;
      EscapeAllGrows(value, 0);
      while i < |value|
        invariant i <= |value| && Valid()
        invariant Wrote(start, Now(), [QUOTE] + EscapeAll(value[..i]), true)
      {
        ghost var before := Now();
        Raw(Escaped(value[i]));
        WroteBoth(start, before, Now(), [QUOTE] + EscapeAll(value[..i]), Escaped(value[i]), true, true);
        EscapeAllGrows(value, i);
        i := i + 1;
      }
      assert value[..i] == value;
      ghost var before := Now();
      Raw([QUOTE]);
      WroteBoth(start, before, Now(), [QUOTE] + EscapeAll(value), [QUOTE], true, true);
      AppendThree([QUOTE], EscapeAll(value), [QUOTE]);
    }

    method Number(value: nat)
      requires Valid()
      modifies this
      ensures Valid() && Wrote(old(Now()), Now(), Print(NumberTree(value)), true)
    {
      HexIsText(value, 16);
      Text(Hex(value, 16));
    }

    method WriteIdentity(id: Identity)
      requires Valid()
      modifies this
      ensures Valid() && Wrote(old(Now()), Now(), Print(IdentityTree(id)), Issuable(id))
    {
      hide Wrote, Print, Issuable, Quote, Hex;
      ghost var s0, text := Now(), Print(IdentityTree(id));
      if failed {
        FailedStays(s0, text, Issuable(id));
        return;
      }
      if !Issuable(id) {
        Fail();
        FailedNow(s0, Now(), text);
        return;
      }
      ghost var actor, counter := Print(String(Hex(id.actor, 32))), Print(NumberTree(id.counter));
      Raw([OPEN_ARRAY]);
      ghost var s1 := Now();
      HexIsText(id.actor, 32);
      PrintText(Hex(id.actor, 32));
      Text(Hex(id.actor, 32));
      ghost var s2 := Now();
      Raw([COMMA]);
      ghost var s3 := Now();
      Number(id.counter);
      ghost var s4 := Now();
      Raw([CLOSE_ARRAY]);
      WroteBoth(s0, s1, s2, [OPEN_ARRAY], actor, true, true);
      WroteBoth(s0, s2, s3, [OPEN_ARRAY] + actor, [COMMA], true, true);
      WroteBoth(s0, s3, s4, [OPEN_ARRAY] + actor + [COMMA], counter, true, true);
      WroteBoth(s0, s4, Now(), [OPEN_ARRAY] + actor + [COMMA] + counter, [CLOSE_ARRAY], true, true);
      PrintPair(String(Hex(id.actor, 32)), NumberTree(id.counter));
    }

    /** One member of a frontier, after the comma if it is not the first. */
    method WriteHead(first: bool, p: Pair)
      requires Valid()
      modifies this
      ensures Valid()
      ensures Wrote(old(Now()), Now(), (if first then [] else [COMMA]) + PrintMember(FrontierMember(p)), true)
    {
      hide Wrote, Print, Quote, Hex;
      ghost var s0 := Now();
      Raw(if first then [] else [COMMA]);
      ghost var s1, comma := Now(), if first then [] else [COMMA];
      HexIsText(p.actor, 32);
      Text(Hex(p.actor, 32));
      ghost var s2, key := Now(), Quote(Hex(p.actor, 32));
      Raw([COLON]);
      ghost var s3 := Now();
      Number(p.counter);
      ghost var value := Print(NumberTree(p.counter));
      WroteBoth(s0, s1, s2, comma, key, true, true);
      WroteBoth(s0, s2, s3, comma + key, [COLON], true, true);
      WroteBoth(s0, s3, Now(), comma + key + [COLON], value, true, true);
      AppendFour(comma, key, [COLON], value);
    }

    method WriteFrontier(ps: seq<Pair>)
      requires Valid()
      modifies this
      ensures Valid() && Wrote(old(Now()), Now(), Print(Object(FrontierMembers(ps))), FrontierFits(ps))
    {
      hide Wrote, Print, PrintMembers, PrintMember, FrontierMembers, FrontierMember, Issuable;
      ghost var s0, text := Now(), Print(Object(FrontierMembers(ps)));
      if failed {
        FailedStays(s0, text, FrontierFits(ps));
        return;
      }
      if |ps| > MAX_FRONTIER {
        Fail();
        FailedNow(s0, Now(), text);
        return;
      }
      Raw([OPEN_OBJECT]);
      FrontierStarts();
      assert ps[..0] == [];
      var i := 0;
      while i < |ps|
        invariant i <= |ps| && Valid()
        invariant forall k :: 0 <= k < i ==> Issuable(Identity(ps[k].actor, ps[k].counter))
        invariant Wrote(s0, Now(), [OPEN_OBJECT] + PrintMembers(FrontierMembers(ps[..i])), true)
      {
        if !Issuable(Identity(ps[i].actor, ps[i].counter)) {
          Fail();
          FailedNow(s0, Now(), text);
          return;
        }
        ghost var before := Now();
        WriteHead(i == 0, ps[i]);
        FrontierGrows(s0, before, Now(), ps, i);
        i := i + 1;
      }
      assert ps[..i] == ps;
      ghost var before := Now();
      Raw([CLOSE_OBJECT]);
      WroteBoth(s0, before, Now(), [OPEN_OBJECT] + PrintMembers(FrontierMembers(ps)), [CLOSE_OBJECT], true, true);
      PrintObject(FrontierMembers(ps));
    }

    method WriteOptional(id: Option<Identity>)
      requires Valid()
      modifies this
      ensures Valid() && Wrote(old(Now()), Now(), Print(OptionalTree(id)), id.Some? ==> Issuable(id.value))
    {
      if id.None? {
        Raw([OPEN_ARRAY, CLOSE_ARRAY]);
        assert PrintAll([]) == [];
        assert Print(Array([])) == [OPEN_ARRAY, CLOSE_ARRAY];
      } else {
        WriteIdentity(id.value);
      }
    }

    method WriteLabel(key: seq<Byte>)
      requires Valid()
      modifies this
      ensures Valid() && Wrote(old(Now()), Now(), Label(key), true)
    {
      Raw(Label(key));
    }

    /** The brace and the first key of an object. */
    method Open(key: seq<Byte>)
      requires Valid()
      modifies this
      ensures Valid() && Wrote(old(Now()), Now(), [OPEN_OBJECT] + Quote(key) + [COLON], true)
    {
      Raw([OPEN_OBJECT] + Quote(key) + [COLON]);
    }

    method WriteLink(link: Link)
      requires Valid()
      modifies this
      ensures Valid() && Wrote(old(Now()), Now(), Print(LinkTree(link)), LinkIssuable(link))
    {
      hide Wrote, Print, PrintMembers, Quote, Issuable, OptionalTree, NumberTree, Label;
      ghost var s0 := Now();
      var side := if link.side.Left? then 0 else 1;
      ghost var p, s, r := Member(KEY_P, OptionalTree(link.parent)), Member(KEY_S, NumberTree(side)),
                           Member(KEY_R, OptionalTree(link.rightOrigin));
      ghost var a, b := link.parent.Some? ==> Issuable(link.parent.value),
                        link.rightOrigin.Some? ==> Issuable(link.rightOrigin.value);
      Open(KEY_P);
      ghost var s1 := Now();
      WriteOptional(link.parent);
      FirstWritten(s0, s1, Now(), KEY_P, p.value, a);
      ghost var s2 := Now();
      WriteLabel(KEY_S);
      ghost var s3 := Now();
      Number(side);
      FieldWritten(s0, s2, s3, Now(), [p], KEY_S, s.value, a, true);
      ghost var s4 := Now();
      WriteLabel(KEY_R);
      ghost var s5 := Now();
      WriteOptional(link.rightOrigin);
      assert [p] + [s] == [p, s];
      FieldWritten(s0, s4, s5, Now(), [p, s], KEY_R, r.value, a, b);
      assert [p, s] + [r] == [p, s, r];
      ghost var s6 := Now();
      Close();
      ObjectClosed(s0, s6, Now(), [p, s, r], a && b);
    }

    /** Two trees in brackets, the first an identity. */
    method WriteCounted(c: Counted)
      requires Valid()
      modifies this
      ensures Valid() && Wrote(old(Now()), Now(), Print(CountedTree(c)), Issuable(c.id))
    {
      hide Wrote, Print, Issuable, IdentityTree, NumberTree;
      ghost var s0 := Now();
      Raw([OPEN_ARRAY]);
      ghost var s1 := Now();
      WriteIdentity(c.id);
      ghost var s2 := Now();
      Raw([COMMA]);
      ghost var s3 := Now();
      Number(c.count);
      ghost var s4 := Now();
      Raw([CLOSE_ARRAY]);
      PairWritten(s0, s1, s2, s3, s4, Now(), IdentityTree(c.id), NumberTree(c.count), Issuable(c.id));
    }

    method WriteSpan(span: Span)
      requires Valid()
      modifies this
      ensures Valid() && Wrote(old(Now()), Now(), Print(SpanTree(span)), true)
    {
      hide Wrote, Print, NumberTree;
      ghost var s0 := Now();
      Raw([OPEN_ARRAY]);
      ghost var s1 := Now();
      Number(span.start);
      ghost var s2 := Now();
      Raw([COMMA]);
      ghost var s3 := Now();
      Number(span.end);
      ghost var s4 := Now();
      Raw([CLOSE_ARRAY]);
      PairWritten(s0, s1, s2, s3, s4, Now(), NumberTree(span.start), NumberTree(span.end), true);
    }

    method WriteRun(r: WireRun)
      requires Valid()
      modifies this
      ensures Valid() && Wrote(old(Now()), Now(), Print(RunTree(r)), RunWritable(r) && IsUtf8(r.content))
    {
      hide Wrote, Print, PrintMembers, Quote, Issuable, IdentityTree, NumberTree, LinkTree, LinkIssuable, Label, IsUtf8;
      ghost var s0 := Now();
      ghost var o, k, c, n, m := Member(KEY_O, IdentityTree(r.origin)), Member(KEY_K, LinkTree(r.link)),
                                 Member(KEY_C, String(r.content)), Member(KEY_N, NumberTree(r.length)),
                                 Member(KEY_M, NumberTree(1));
      ghost var fits := |r.content| <= MAX_TEXT && IsUtf8(r.content);
      Open(KEY_O);
      ghost var s1 := Now();
      WriteIdentity(r.origin);
      FirstWritten(s0, s1, Now(), KEY_O, o.value, Issuable(r.origin));
      ghost var s2 := Now();
      WriteLabel(KEY_K);
      ghost var s3 := Now();
      WriteLink(r.link);
      FieldWritten(s0, s2, s3, Now(), [o], KEY_K, k.value, Issuable(r.origin), LinkIssuable(r.link));
      ghost var s4 := Now();
      WriteLabel(KEY_C);
      ghost var s5 := Now();
      PrintText(r.content);
      Text(r.content);
      assert [o] + [k] == [o, k];
      FieldWritten(s0, s4, s5, Now(), [o, k], KEY_C, c.value, Issuable(r.origin) && LinkIssuable(r.link), fits);
      ghost var s6 := Now();
      WriteLabel(KEY_N);
      ghost var s7 := Now();
      Number(r.length);
      assert [o, k] + [c] == [o, k, c];
      ghost var allowed := Issuable(r.origin) && LinkIssuable(r.link) && fits;
      FieldWritten(s0, s6, s7, Now(), [o, k, c], KEY_N, n.value, allowed, true);
      assert [o, k, c] + [n] == [o, k, c, n];
      ghost var ms := [o, k, c, n];
      if r.marker {
        ghost var s8 := Now();
        WriteLabel(KEY_M);
        ghost var s9 := Now();
        Number(1);
        FieldWritten(s0, s8, s9, Now(), ms, KEY_M, m.value, allowed, true);
        ms := ms + [m];
      }
      ghost var s10 := Now();
      Close();
      ObjectClosed(s0, s10, Now(), ms, allowed);
      assert RunTree(r) == Object(ms);
    }

    method WriteString(text: seq<Byte>)
      requires Valid()
      modifies this
      ensures Valid() && Wrote(old(Now()), Now(), Print(TextTree(text)), |text| <= MAX_TEXT && IsUtf8(text))
    {
      PrintText(text);
      Text(text);
    }

    /** One element, after the comma if it is not the first. */
    method CountedElement(first: bool, c: Counted)
      requires Valid()
      modifies this
      ensures Valid() && Wrote(old(Now()), Now(), (if first then [] else [COMMA]) + Print(CountedTree(c)), Issuable(c.id))
    {
      hide Wrote, Print;
      ghost var s0 := Now();
      Raw(if first then [] else [COMMA]);
      ghost var s1 := Now();
      WriteCounted(c);
      WroteBoth(s0, s1, Now(), if first then [] else [COMMA], Print(CountedTree(c)), true, Issuable(c.id));
    }

    /** One element, after the comma if it is not the first. */
    method SpanElement(first: bool, span: Span)
      requires Valid()
      modifies this
      ensures Valid() && Wrote(old(Now()), Now(), (if first then [] else [COMMA]) + Print(SpanTree(span)), true)
    {
      hide Wrote, Print;
      ghost var s0 := Now();
      Raw(if first then [] else [COMMA]);
      ghost var s1 := Now();
      WriteSpan(span);
      WroteBoth(s0, s1, Now(), if first then [] else [COMMA], Print(SpanTree(span)), true, true);
    }

    /** One element, after the comma if it is not the first. */
    method TextElement(first: bool, text: seq<Byte>)
      requires Valid()
      modifies this
      ensures Valid() && Wrote(old(Now()), Now(), (if first then [] else [COMMA]) + Print(TextTree(text)), |text| <= MAX_TEXT && IsUtf8(text))
    {
      hide Wrote, Print;
      ghost var s0 := Now();
      Raw(if first then [] else [COMMA]);
      ghost var s1 := Now();
      WriteString(text);
      WroteBoth(s0, s1, Now(), if first then [] else [COMMA], Print(TextTree(text)), true, |text| <= MAX_TEXT && IsUtf8(text));
    }

    /** One element, after the comma if it is not the first. */
    method RunElement(first: bool, r: WireRun)
      requires Valid()
      modifies this
      ensures Valid() && Wrote(old(Now()), Now(), (if first then [] else [COMMA]) + Print(RunTree(r)), RunWritable(r) && IsUtf8(r.content))
    {
      hide Wrote, Print;
      ghost var s0 := Now();
      Raw(if first then [] else [COMMA]);
      ghost var s1 := Now();
      WriteRun(r);
      WroteBoth(s0, s1, Now(), if first then [] else [COMMA], Print(RunTree(r)), true, RunWritable(r) && IsUtf8(r.content));
    }

    method WriteCounts(xs: seq<Counted>)
      requires Valid()
      modifies this
      ensures Valid() && Wrote(old(Now()), Now(), Print(Array(Trees(xs, CountedTree))), CountsIssuable(xs))
    {
      hide Wrote, Print, PrintAll, Trees, CountedTree;
      ghost var s0 := Now();
      Raw([OPEN_ARRAY]);
      ListStarts(CountedTree);
      assert xs[..0] == [];
      ghost var allowed := true;
      var i := 0;
      while i < |xs|
        invariant i <= |xs| && Valid()
        invariant allowed <==> forall k :: 0 <= k < i ==> Issuable(xs[k].id)
        invariant Wrote(s0, Now(), [OPEN_ARRAY] + PrintAll(Trees(xs[..i], CountedTree)), allowed)
      {
        ghost var s1 := Now();
        CountedElement(i == 0, xs[i]);
        ElementWritten(s0, s1, Now(), xs, CountedTree, i, allowed, Issuable(xs[i].id));
        allowed := allowed && Issuable(xs[i].id);
        i := i + 1;
      }
      assert xs[..i] == xs;
      ghost var s2 := Now();
      Raw([CLOSE_ARRAY]);
      WroteBoth(s0, s2, Now(), [OPEN_ARRAY] + PrintAll(Trees(xs, CountedTree)), [CLOSE_ARRAY], allowed, true);
      PrintArray(Trees(xs, CountedTree));
    }

    method WriteSpans(xs: seq<Span>)
      requires Valid()
      modifies this
      ensures Valid() && Wrote(old(Now()), Now(), Print(Array(Trees(xs, SpanTree))), true)
    {
      hide Wrote, Print, PrintAll, Trees, SpanTree;
      ghost var s0 := Now();
      Raw([OPEN_ARRAY]);
      ListStarts(SpanTree);
      assert xs[..0] == [];
      ghost var allowed := true;
      var i := 0;
      while i < |xs|
        invariant i <= |xs| && Valid()
        invariant allowed
        invariant Wrote(s0, Now(), [OPEN_ARRAY] + PrintAll(Trees(xs[..i], SpanTree)), allowed)
      {
        ghost var s1 := Now();
        SpanElement(i == 0, xs[i]);
        ElementWritten(s0, s1, Now(), xs, SpanTree, i, allowed, true);
        i := i + 1;
      }
      assert xs[..i] == xs;
      ghost var s2 := Now();
      Raw([CLOSE_ARRAY]);
      WroteBoth(s0, s2, Now(), [OPEN_ARRAY] + PrintAll(Trees(xs, SpanTree)), [CLOSE_ARRAY], allowed, true);
      PrintArray(Trees(xs, SpanTree));
    }

    method WriteTexts(xs: seq<seq<Byte>>)
      requires Valid()
      modifies this
      ensures Valid() && Wrote(old(Now()), Now(), Print(Array(Trees(xs, TextTree))), forall k :: 0 <= k < |xs| ==> |xs[k]| <= MAX_TEXT && IsUtf8(xs[k]))
    {
      hide Wrote, Print, PrintAll, Trees, TextTree;
      ghost var s0 := Now();
      Raw([OPEN_ARRAY]);
      ListStarts(TextTree);
      assert xs[..0] == [];
      ghost var allowed := true;
      var i := 0;
      while i < |xs|
        invariant i <= |xs| && Valid()
        invariant allowed <==> forall k :: 0 <= k < i ==> |xs[k]| <= MAX_TEXT && IsUtf8(xs[k])
        invariant Wrote(s0, Now(), [OPEN_ARRAY] + PrintAll(Trees(xs[..i], TextTree)), allowed)
      {
        ghost var s1 := Now();
        TextElement(i == 0, xs[i]);
        ElementWritten(s0, s1, Now(), xs, TextTree, i, allowed, |xs[i]| <= MAX_TEXT && IsUtf8(xs[i]));
        allowed := allowed && |xs[i]| <= MAX_TEXT && IsUtf8(xs[i]);
        i := i + 1;
      }
      assert xs[..i] == xs;
      ghost var s2 := Now();
      Raw([CLOSE_ARRAY]);
      WroteBoth(s0, s2, Now(), [OPEN_ARRAY] + PrintAll(Trees(xs, TextTree)), [CLOSE_ARRAY], allowed, true);
      PrintArray(Trees(xs, TextTree));
    }

    method WriteRuns(xs: seq<WireRun>)
      requires Valid()
      modifies this
      ensures Valid() && Wrote(old(Now()), Now(), Print(Array(Trees(xs, RunTree))), forall k :: 0 <= k < |xs| ==> RunWritable(xs[k]) && IsUtf8(xs[k].content))
    {
      hide Wrote, Print, PrintAll, Trees, RunTree;
      ghost var s0 := Now();
      Raw([OPEN_ARRAY]);
      ListStarts(RunTree);
      assert xs[..0] == [];
      ghost var allowed := true;
      var i := 0;
      while i < |xs|
        invariant i <= |xs| && Valid()
        invariant allowed <==> forall k :: 0 <= k < i ==> RunWritable(xs[k]) && IsUtf8(xs[k].content)
        invariant Wrote(s0, Now(), [OPEN_ARRAY] + PrintAll(Trees(xs[..i], RunTree)), allowed)
      {
        ghost var s1 := Now();
        RunElement(i == 0, xs[i]);
        ElementWritten(s0, s1, Now(), xs, RunTree, i, allowed, RunWritable(xs[i]) && IsUtf8(xs[i].content));
        allowed := allowed && RunWritable(xs[i]) && IsUtf8(xs[i].content);
        i := i + 1;
      }
      assert xs[..i] == xs;
      ghost var s2 := Now();
      Raw([CLOSE_ARRAY]);
      WroteBoth(s0, s2, Now(), [OPEN_ARRAY] + PrintAll(Trees(xs, RunTree)), [CLOSE_ARRAY], allowed, true);
      PrintArray(Trees(xs, RunTree));
    }

    /** The tag, the identity, the frontier and the reserved interval. */
    method WriteHeader(o: WireOperation)
      requires Valid() && Reserved(o) <= o.timestamp.counter
      modifies this
      ensures Valid()
      ensures Wrote(old(Now()), Now(), [OPEN_OBJECT] + PrintMembers(HeadMembers(o)), HeadFits(o))
    {
      hide Wrote, Print, PrintMembers, Quote, Issuable, IdentityTree, NumberTree, Label, IsUtf8, FrontierMembers,
           FrontierFits, Reserved, Head;
      ghost var s0 := Now();
      var tag := if o.WireEdit? then TAG_EDIT else TAG_UNDO;
      var first, count := o.timestamp.counter - Reserved(o) + 1, Reserved(o);
      ghost var t, ts, v, a := Member(KEY_T, String(tag)), Member(KEY_TS, IdentityTree(o.timestamp)),
                               Member(KEY_V, Object(FrontierMembers(o.version))),
                               Member(KEY_A, Array([NumberTree(first), NumberTree(count)]));
      AsciiIsText(tag);
      PrintText(tag);
      Open(KEY_T);
      ghost var s1 := Now();
      Text(tag);
      FirstWritten(s0, s1, Now(), KEY_T, t.value, true);
      if !Issuable(o.timestamp) || Head(o.version, o.timestamp.actor) >= first {
        Fail();
        FailedNow(s0, Now(), [OPEN_OBJECT] + PrintMembers(HeadMembers(o)));
        return;
      }
      ghost var s2 := Now();
      WriteLabel(KEY_TS);
      ghost var s3 := Now();
      WriteIdentity(o.timestamp);
      FieldWritten(s0, s2, s3, Now(), [t], KEY_TS, ts.value, true, true);
      ghost var s4 := Now();
      WriteLabel(KEY_V);
      ghost var s5 := Now();
      WriteFrontier(o.version);
      assert [t] + [ts] == [t, ts];
      FieldWritten(s0, s4, s5, Now(), [t, ts], KEY_V, v.value, true, FrontierFits(o.version));
      ghost var s6 := Now();
      WriteLabel(KEY_A);
      ghost var s7 := Now();
      WriteNumbers(first, count);
      assert [t, ts] + [v] == [t, ts, v];
      FieldWritten(s0, s6, s7, Now(), [t, ts, v], KEY_A, a.value, FrontierFits(o.version), true);
      assert [t, ts, v] + [a] == HeadMembers(o);
    }

    method WriteNumbers(a: nat, b: nat)
      requires Valid()
      modifies this
      ensures Valid() && Wrote(old(Now()), Now(), Print(Array([NumberTree(a), NumberTree(b)])), true)
    {
      hide Wrote, Print, NumberTree;
      ghost var s0 := Now();
      Raw([OPEN_ARRAY]);
      ghost var s1 := Now();
      Number(a);
      ghost var s2 := Now();
      Raw([COMMA]);
      ghost var s3 := Now();
      Number(b);
      ghost var s4 := Now();
      Raw([CLOSE_ARRAY]);
      PairWritten(s0, s1, s2, s3, s4, Now(), NumberTree(a), NumberTree(b), true);
    }

    /** The members of an edit after its header. */
    method WriteEditFields(o: WireOperation, ghost s0: Output, ghost head: seq<Member>, ghost allowed: bool)
      requires Valid() && o.WireEdit? && head != []
      requires Wrote(s0, Now(), [OPEN_OBJECT] + PrintMembers(head), allowed)
      modifies this
      ensures Valid()
      ensures Wrote(s0, Now(), [OPEN_OBJECT] + PrintMembers(head + EditMembers(o)), allowed && EditWritable(o))
    {
      hide *;
      WriteReplacement(o, s0, head, allowed);
      ghost var texts := TextsWritable(o);
      WritePayload(o, s0, head + ReplacementMembers(o), allowed && Issuable(o.deletionId) && texts);
      EditParts(o);
      AppendThree(head, ReplacementMembers(o), PayloadMembers(o));
    }

    method WriteReplacement(o: WireOperation, ghost s0: Output, ghost head: seq<Member>, ghost allowed: bool)
      requires Valid() && o.WireEdit? && head != []
      requires Wrote(s0, Now(), [OPEN_OBJECT] + PrintMembers(head), allowed)
      modifies this
      ensures Valid()
      ensures Wrote(s0, Now(), [OPEN_OBJECT] + PrintMembers(head + ReplacementMembers(o)),
                    allowed && Issuable(o.deletionId) && TextsWritable(o))
    {
      hide Wrote, Print, PrintMembers, Quote, Issuable, IdentityTree, Trees, Label, IsUtf8;
      ghost var did, r, nt := Member(KEY_DID, IdentityTree(o.deletionId)),
        Member(KEY_R, Array(Trees(o.ranges, SpanTree))), Member(KEY_NT, Array(Trees(o.newText, TextTree)));
      ghost var known := allowed && Issuable(o.deletionId);
      ghost var s1 := Now();
      WriteLabel(KEY_DID);
      ghost var s2 := Now();
      WriteIdentity(o.deletionId);
      FieldWritten(s0, s1, s2, Now(), head, KEY_DID, did.value, allowed, Issuable(o.deletionId));
      ghost var s3 := Now();
      WriteLabel(KEY_R);
      ghost var s4 := Now();
      WriteSpans(o.ranges);
      FieldWritten(s0, s3, s4, Now(), head + [did], KEY_R, r.value, known, true);
      ghost var s5 := Now();
      WriteLabel(KEY_NT);
      ghost var s6 := Now();
      WriteTexts(o.newText);
      FieldWritten(s0, s5, s6, Now(), head + [did] + [r], KEY_NT, nt.value, known, TextsWritable(o));
      assert head + [did] + [r] + [nt] == head + ReplacementMembers(o);
    }

    method WritePayload(o: WireOperation, ghost s0: Output, ghost head: seq<Member>, ghost allowed: bool)
      requires Valid() && o.WireEdit? && head != []
      requires Wrote(s0, Now(), [OPEN_OBJECT] + PrintMembers(head), allowed)
      modifies this
      ensures Valid()
      ensures Wrote(s0, Now(), [OPEN_OBJECT] + PrintMembers(head + PayloadMembers(o)),
                    allowed && RunsWritable(o) && CountsIssuable(o.deleted))
    {
      hide Wrote, Print, PrintMembers, Quote, Issuable, Trees, Label, IsUtf8, RunWritable, CountsIssuable;
      ghost var fs, dr := Member(KEY_IF, Array(Trees(o.inserted, RunTree))), Member(KEY_DR, Array(Trees(o.deleted, CountedTree)));
      ghost var s1 := Now();
      WriteLabel(KEY_IF);
      ghost var s2 := Now();
      WriteRuns(o.inserted);
      FieldWritten(s0, s1, s2, Now(), head, KEY_IF, fs.value, allowed, RunsWritable(o));
      ghost var s3 := Now();
      WriteLabel(KEY_DR);
      ghost var s4 := Now();
      WriteCounts(o.deleted);
      FieldWritten(s0, s3, s4, Now(), head + [fs], KEY_DR, dr.value, allowed && RunsWritable(o), CountsIssuable(o.deleted));
      assert head + [fs] + [dr] == head + PayloadMembers(o);
    }

    method Close()
      requires Valid()
      modifies this
      ensures Valid() && Wrote(old(Now()), Now(), [CLOSE_OBJECT], true)
    {
      Raw([CLOSE_OBJECT]);
    }
  }

  lemma {:induction false} PrintText(text: seq<Byte>)
    ensures Print(String(text)) == Quote(text)
  {
  }

  lemma {:induction false} PrintObject(ms: seq<Member>)
    ensures Print(Object(ms)) == [OPEN_OBJECT] + PrintMembers(ms) + [CLOSE_OBJECT]
  {
    hide PrintMembers;
    AppendThree([OPEN_OBJECT], PrintMembers(ms), [CLOSE_OBJECT]);
  }

  lemma {:induction false} PrintArray(vs: seq<Value>)
    ensures Print(Array(vs)) == [OPEN_ARRAY] + PrintAll(vs) + [CLOSE_ARRAY]
  {
    hide PrintAll;
    AppendThree([OPEN_ARRAY], PrintAll(vs), [CLOSE_ARRAY]);
  }

  lemma {:induction false} FailedStays(s: Output, text: seq<Byte>, allowed: bool)
    requires s.failed
    ensures Wrote(s, s, text, allowed)
  {
  }

  lemma {:induction false} FailedNow(s: Output, t: Output, text: seq<Byte>)
    requires t.failed
    ensures Wrote(s, t, text, false)
  {
  }

  lemma {:induction false} EscapeAllGrows(value: seq<Byte>, i: nat)
    requires i <= |value|
    ensures [QUOTE] + EscapeAll(value[..0]) == [QUOTE]
    ensures i < |value| ==> [QUOTE] + EscapeAll(value[..i + 1]) == [QUOTE] + EscapeAll(value[..i]) + Escaped(value[i])
  {
    if i < |value| {
      assert value[..i + 1] == value[..i] + [value[i]];
      EscapeAllConcat(value[..i], [value[i]]);
      assert EscapeAll([value[i]]) == Escaped(value[i]) + EscapeAll([]);
    }
  }

  lemma {:induction false} FrontierStarts()
    ensures [OPEN_OBJECT] + PrintMembers(FrontierMembers([])) == [OPEN_OBJECT]
  {
  }

  lemma {:induction false} FrontierGrows(s0: Output, s1: Output, s2: Output, ps: seq<Pair>, i: nat)
    requires i < |ps|
    requires Wrote(s0, s1, [OPEN_OBJECT] + PrintMembers(FrontierMembers(ps[..i])), true)
    requires Wrote(s1, s2, (if i == 0 then [] else [COMMA]) + PrintMember(FrontierMember(ps[i])), true)
    ensures Wrote(s0, s2, [OPEN_OBJECT] + PrintMembers(FrontierMembers(ps[..i + 1])), true)
  {
    hide Wrote, PrintMembers, PrintMember, FrontierMember;
    var before := FrontierMembers(ps[..i]);
    assert ps[..i + 1][..i] == ps[..i];
    assert FrontierMembers(ps[..i + 1]) == before + [FrontierMember(ps[i])];
    PrintMembersGrows(before, FrontierMember(ps[i]));
    var comma := if i == 0 then [] else [COMMA];
    WroteBoth(s0, s1, s2, [OPEN_OBJECT] + PrintMembers(before), comma + PrintMember(FrontierMember(ps[i])), true, true);
    if i == 0 {
      assert before == [];
      NoElements(0, 0);
    }
    AppendFour([OPEN_OBJECT], PrintMembers(before), comma, PrintMember(FrontierMember(ps[i])));
    AppendThree(PrintMembers(before), comma, PrintMember(FrontierMember(ps[i])));
    AppendThree([OPEN_OBJECT] + PrintMembers(before), comma, PrintMember(FrontierMember(ps[i])));
  }

  /** The first key of an object and its value. */
  lemma {:induction false} FirstWritten(s: Output, t: Output, u: Output, key: seq<Byte>, value: Value, allowed: bool)
    requires Wrote(s, t, [OPEN_OBJECT] + Quote(key) + [COLON], true)
    requires Wrote(t, u, Print(value), allowed)
    ensures Wrote(s, u, [OPEN_OBJECT] + PrintMembers([Member(key, value)]), allowed)
  {
    hide Wrote, Print, Quote;
    WroteBoth(s, t, u, [OPEN_OBJECT] + Quote(key) + [COLON], Print(value), true, allowed);
    var m := PrintMember(Member(key, value));
    assert PrintMembers([Member(key, value)]) == m + [];
    assert m + [] == m;
    AppendFour([OPEN_OBJECT], Quote(key), [COLON], Print(value));
  }

  lemma {:induction false} ObjectClosed(s: Output, t: Output, u: Output, ms: seq<Member>, allowed: bool)
    requires Wrote(s, t, [OPEN_OBJECT] + PrintMembers(ms), allowed)
    requires Wrote(t, u, [CLOSE_OBJECT], true)
    ensures Wrote(s, u, Print(Object(ms)), allowed)
  {
    hide Wrote, Print, PrintMembers;
    WroteBoth(s, t, u, [OPEN_OBJECT] + PrintMembers(ms), [CLOSE_OBJECT], allowed, true);
    PrintObject(ms);
  }

  lemma {:induction false} PairWritten(s0: Output, s1: Output, s2: Output, s3: Output, s4: Output, s5: Output,
                                       a: Value, b: Value, allowed: bool)
    requires Wrote(s0, s1, [OPEN_ARRAY], true) && Wrote(s1, s2, Print(a), allowed) && Wrote(s2, s3, [COMMA], true)
    requires Wrote(s3, s4, Print(b), true) && Wrote(s4, s5, [CLOSE_ARRAY], true)
    ensures Wrote(s0, s5, Print(Array([a, b])), allowed)
  {
    hide Wrote, Print;
    WroteBoth(s0, s1, s2, [OPEN_ARRAY], Print(a), true, allowed);
    WroteBoth(s0, s2, s3, [OPEN_ARRAY] + Print(a), [COMMA], allowed, true);
    WroteBoth(s0, s3, s4, [OPEN_ARRAY] + Print(a) + [COMMA], Print(b), allowed, true);
    WroteBoth(s0, s4, s5, [OPEN_ARRAY] + Print(a) + [COMMA] + Print(b), [CLOSE_ARRAY], allowed, true);
    PrintPair(a, b);
  }

  lemma {:induction false} ListStarts<T>(f: T -> Value)
    ensures [OPEN_ARRAY] + PrintAll(Trees([], f)) == [OPEN_ARRAY]
  {
  }

  lemma {:induction false} ElementWritten<T>(s0: Output, s1: Output, s2: Output, xs: seq<T>, f: T -> Value, i: nat,
                                             a: bool, b: bool)
    requires i < |xs|
    requires Wrote(s0, s1, [OPEN_ARRAY] + PrintAll(Trees(xs[..i], f)), a)
    requires Wrote(s1, s2, (if i == 0 then [] else [COMMA]) + Print(f(xs[i])), b)
    ensures Wrote(s0, s2, [OPEN_ARRAY] + PrintAll(Trees(xs[..i + 1], f)), a && b)
  {
    hide Wrote, Print, PrintAll;
    var before := Trees(xs[..i], f);
    assert xs[..i + 1][..i] == xs[..i];
    assert Trees(xs[..i + 1], f) == before + [f(xs[i])];
    PrintAllGrows(before, f(xs[i]));
    var comma, value := if i == 0 then [] else [COMMA], Print(f(xs[i]));
    WroteBoth(s0, s1, s2, [OPEN_ARRAY] + PrintAll(before), comma + value, a, b);
    if i == 0 {
      assert before == [];
      NoElements(0, 0);
    }
    AppendFour([OPEN_ARRAY], PrintAll(before), comma, value);
    AppendThree(PrintAll(before), comma, value);
    AppendThree([OPEN_ARRAY] + PrintAll(before), comma, value);
  }

  predicate HeadFits(o: WireOperation) {
    && Issuable(o.timestamp) && FrontierFits(o.version)
    && Head(o.version, o.timestamp.actor) < o.timestamp.counter - Reserved(o) + 1
  }

  ghost predicate TextsWritable(o: WireOperation)
    requires o.WireEdit?
  {
    forall k :: 0 <= k < |o.newText| ==> |o.newText[k]| <= MAX_TEXT && IsUtf8(o.newText[k])
  }

  ghost predicate RunsWritable(o: WireOperation)
    requires o.WireEdit?
  {
    forall k :: 0 <= k < |o.inserted| ==> RunWritable(o.inserted[k]) && IsUtf8(o.inserted[k].content)
  }

  ghost predicate EditWritable(o: WireOperation)
    requires o.WireEdit?
  {
    Issuable(o.deletionId) && TextsWritable(o) && RunsWritable(o) && CountsIssuable(o.deleted)
  }

  function ReplacementMembers(o: WireOperation): seq<Member>
    requires o.WireEdit?
  {
    [Member(KEY_DID, IdentityTree(o.deletionId)),
     Member(KEY_R, Array(Trees(o.ranges, SpanTree))),
     Member(KEY_NT, Array(Trees(o.newText, TextTree)))]
  }

  function PayloadMembers(o: WireOperation): seq<Member>
    requires o.WireEdit?
  {
    [Member(KEY_IF, Array(Trees(o.inserted, RunTree))), Member(KEY_DR, Array(Trees(o.deleted, CountedTree)))]
  }

  lemma {:induction false} EditParts(o: WireOperation)
    requires o.WireEdit?
    ensures EditMembers(o) == ReplacementMembers(o) + PayloadMembers(o)
    ensures EditWritable(o) <==> Issuable(o.deletionId) && TextsWritable(o) && RunsWritable(o) && CountsIssuable(o.deleted)
  {
    hide IdentityTree, Trees, Issuable, TextsWritable, RunsWritable, CountsIssuable;
  }

  // ---- Encoding ----

  /** read_frame: the header, then one JSON object and nothing after it. */
  method ReadFrame(bytes: seq<Byte>, version: seq<Byte>) returns (r: Outcome<Value>)
    ensures r == Root(bytes, version)
  {
    if |bytes| > FRAME_LIMIT {
      return Refused(Malformed);
    }
    if |bytes| < 4 {
      if bytes != [] && OperationFrames.MAGIC[..|bytes|] == bytes {
        return Refused(Malformed);
      }
      return Refused(UnknownFormat);
    }
    if bytes[..4] != OperationFrames.MAGIC {
      return Refused(UnknownFormat);
    }
    if |bytes| < 9 {
      return Refused(Malformed);
    }
    if bytes[8] != COLON {
      return Refused(Malformed);
    }
    if ReadHex(bytes[4..8]).None? {
      return Refused(Malformed);
    }
    if bytes[4..8] != version {
      return Refused(UnsupportedVersion);
    }
    var root := ParseSyntax(bytes[9..]);
    if root.None? || !root.value.Object? {
      return Refused(Malformed);
    }
    return Accepted(root.value);
  }

  method CheckCounts(counts: seq<Counted>, timestamp: Identity) returns (ok: bool)
    ensures ok <==> |counts| <= MAX_TARGETS && CountsIssuable(counts) && TargetsOlder(counts, timestamp)
  {
    if |counts| > MAX_TARGETS {
      return false;
    }
    var i := 0;
    while i < |counts|
      invariant i <= |counts|
      invariant forall k :: 0 <= k < i ==> Issuable(counts[k].id) && IdLess(counts[k].id, timestamp)
    {
      if !Issuable(counts[i].id) || !IdLess(counts[i].id, timestamp) {
        return false;
      }
      i := i + 1;
    }
    return true;
  }

  /** Refuses exactly what is not encodable; what it writes decodes to the
      operation it was given. */
  method EncodeOperation(o: WireOperation) returns (r: Option<seq<Byte>>)
    requires Canonical(o.version)
    ensures r.Some? <==> Encodable(o)
    ensures r.Some? ==> r.value == Frame(o) && Meaning(r.value) == Accepted(o)
  {
    hide Wrote, Print, Members, Frame, HeaderOf, Checks, Writes, InOrder, Encodable, Meaning, Root, Spend, Reserved, Canonical;
    var fits := PreCheck(o);
    if !fits {
      CheckParts(o);
      return None;
    }
    CheckParts(o);
    var w := new Writer();
    ghost var s0 := w.Now();
    w.Raw(HeaderOf(o));
    ghost var s1 := w.Now();
    WriteOperation(o, w);
    ghost var s2 := w.Now();
    WroteBoth(s0, s1, s2, HeaderOf(o), Print(Object(Members(o))), true, Writes(o));
    FrameParts(o);
    EncodableParts(o);
    WrittenParts(s0, s2, Frame(o), Writes(o));
    if w.failed {
      return None;
    }
    var root := ReadFrame(w.bytes, VersionFor(o.WireEdit? && o.markerEdit));
    RootOfFrame(o);
    if root.Refused? {
      return None;
    }
    MeaningOfFrame(o);
    return Some(w.bytes);
  }

  /** What is checked before anything is written. */
  ghost predicate Checks(o: WireOperation) {
    Issuable(o.timestamp) &&
    if o.WireEdit? then Allocates(o)
    else |o.counts| <= MAX_TARGETS && CountsIssuable(o.counts) && TargetsOlder(o.counts, o.timestamp)
  }

  /** What the writer checks on the way. */
  ghost predicate Writes(o: WireOperation) {
    HeadFits(o) && if o.WireEdit? then EditWritable(o) else CountsIssuable(o.counts)
  }

  method PreCheck(o: WireOperation) returns (ok: bool)
    ensures ok <==> Checks(o)
  {
    hide Allocates, CountsIssuable, TargetsOlder;
    if !Issuable(o.timestamp) {
      return false;
    }
    if o.WireEdit? {
      var allocation := EditAllocation(o);
      return allocation.Some?;
    }
    ok := CheckCounts(o.counts, o.timestamp);
  }

  lemma {:induction false} CheckParts(o: WireOperation)
    ensures Encodable(o) ==> Checks(o)
    ensures Checks(o) ==> Reserved(o) <= o.timestamp.counter
  {
    hide Frame, Members, Spend, EditFits, Tiles, RunWritable, TotalLength;
  }

  lemma {:induction false} FrameParts(o: WireOperation)
    requires Reserved(o) <= o.timestamp.counter
    ensures Frame(o) == HeaderOf(o) + Print(Object(Members(o)))
  {
    hide HeaderOf, Print, Members, Reserved;
  }

  lemma {:induction false} EncodableParts(o: WireOperation)
    requires Checks(o) && Reserved(o) <= o.timestamp.counter
    ensures InOrder(o) <==> Writes(o)
    ensures (Encodable(o) <==> InOrder(o) && |Frame(o)| <= FRAME_LIMIT
                               && Spend(Object(Members(o)), 0, MAX_ELEMENTS).Some?)
  {
    hide Frame, Members, Spend, Reserved, Allocates, Head, RunWritable, IsUtf8, CountsIssuable, TargetsOlder;
    if o.WireEdit? {
      AllocatesTexts(o);
      AllocatesDeletion(o);
    }
  }

  lemma {:induction false} WrittenParts(s: Output, t: Output, text: seq<Byte>, allowed: bool)
    requires Wrote(s, t, text, allowed) && s == Output([], false)
    ensures t.failed <==> !allowed || |text| > FRAME_LIMIT
    ensures !t.failed ==> t.bytes == text
  {
    assert [] + text == text;
  }

  method WriteOperation(o: WireOperation, w: Writer)
    requires w.Valid() && Reserved(o) <= o.timestamp.counter
    modifies w
    ensures w.Valid() && Wrote(old(w.Now()), w.Now(), Print(Object(Members(o))), Writes(o))
  {
    hide Wrote, Print, PrintMembers, HeadMembers, EditMembers, HeadFits, EditWritable, CountsIssuable, Trees, Reserved,
         Label, NumberTree, Quote;
    ghost var s0 := w.Now();
    ghost var ms := HeadMembers(o);
    HeadNotEmpty(o);
    w.WriteHeader(o);
    ghost var allowed := HeadFits(o);
    if o.WireEdit? {
      if o.markerEdit {
        ghost var s1 := w.Now();
        w.WriteLabel(KEY_MARKER);
        ghost var s2 := w.Now();
        w.Number(1);
        FieldWritten(s0, s1, s2, w.Now(), ms, KEY_MARKER, NumberTree(1), allowed, true);
      }
      ms := ms + MarkerMembers(o);
      assert !o.markerEdit ==> ms == HeadMembers(o);
      w.WriteEditFields(o, s0, ms, allowed);
      ms, allowed := ms + EditMembers(o), allowed && EditWritable(o);
    } else {
      ghost var s1 := w.Now();
      w.WriteLabel(KEY_C);
      ghost var s2 := w.Now();
      w.WriteCounts(o.counts);
      FieldWritten(s0, s1, s2, w.Now(), ms, KEY_C, Array(Trees(o.counts, CountedTree)), allowed, CountsIssuable(o.counts));
      ms, allowed := ms + [Member(KEY_C, Array(Trees(o.counts, CountedTree)))], allowed && CountsIssuable(o.counts);
    }
    ghost var s3 := w.Now();
    w.Close();
    ObjectClosed(s0, s3, w.Now(), ms, allowed);
  }

  lemma HeadNotEmpty(o: WireOperation)
    requires Reserved(o) <= o.timestamp.counter
    ensures HeadMembers(o) != []
  {
  }
}
