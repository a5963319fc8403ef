/** Reading undoes writing. */
module JsonLaws {
  import opened Ids
  import opened Bytes
  import opened Fragments
  import opened Utf
  import opened Json

  // ---- Literal runs ----

  predicate AllLiteral(s: seq<Byte>) {
    forall i :: 0 <= i < |s| ==> !Stops(s[i])
  }

  lemma {:induction false} RunStopsAt(a: seq<Byte>, b: seq<Byte>)
    requires AllLiteral(a) && b != [] && Stops(b[0])
    ensures RunLength(a + b) == |a| && (a + b)[..|a|] == a && (a + b)[|a|..] == b
  {
    if a == [] {
      assert a + b == b;
    } else {
      assert (a + b)[1..] == a[1..] + b;
      RunStopsAt(a[1..], b);
    }
  }

  lemma {:induction false} LiteralIsUnescaped(s: seq<Byte>)
    requires AllLiteral(s)
    ensures EscapeAll(s) == s
  {
    if s != [] {
      LiteralIsUnescaped(s[1..]);
      assert s == [s[0]] + s[1..];
    }
  }

  lemma {:induction false} EscapeAllConcat(a: seq<Byte>, b: seq<Byte>)
    ensures EscapeAll(a + b) == EscapeAll(a) + EscapeAll(b)
  {
    if a == [] {
      assert a + b == b;
    } else {
      assert (a + b)[1..] == a[1..] + b;
      EscapeAllConcat(a[1..], b);
    }
  }

  // ---- An ASCII byte is a boundary ----

  lemma {:induction false} MultibyteIsHigh(c: Scalar, i: nat)
    requires i < |Encoded(c)| && |Encoded(c)| > 1
    ensures Encoded(c)[i] >= 0x80
  {
  }

  /** Cutting a text at an ASCII byte leaves two texts. */
  lemma {:induction false} SplitAtAscii(cs: seq<Scalar>, k: nat)
    requires k < |Utf8(cs)| && Utf8(cs)[k] < 0x80
    ensures IsUtf8(Utf8(cs)[..k]) && IsUtf8(Utf8(cs)[k + 1..])
  {
    var first, rest := Encoded(cs[0]), Utf8(cs[1..]);
    assert Utf8(cs) == first + rest;
    if k < |first| {
      if |first| > 1 {
        MultibyteIsHigh(cs[0], k);
      }
      assert Utf8(cs)[..0] == Utf8([]);
      assert Utf8(cs)[1..] == rest;
    } else {
      SplitAtAscii(cs[1..], k - |first|);
      var before :| Utf8(before) == rest[..k - |first|];
      assert Utf8([cs[0]] + before) == Utf8(cs)[..k] by {
        Utf8Append([cs[0]], before);
        assert Utf8([cs[0]]) == first + Utf8([]);
      }
      assert Utf8(cs)[k + 1..] == rest[k + 1 - |first|..];
    }
  }

  lemma {:induction false} SplitText(text: seq<Byte>, k: nat)
    requires IsUtf8(text) && k < |text| && text[k] < 0x80
    ensures IsUtf8(text[..k]) && IsUtf8(text[k + 1..])
  {
    var cs :| Utf8(cs) == text;
    SplitAtAscii(cs, k);
  }

  // ---- One escape ----

  lemma {:induction false} HexOfDigit(n: nat)
    requires n < 16
    ensures HexValue(HexDigit(n)) == Some(n)
  {
  }

  /** The reader takes each escape the writer makes back to its byte. */
  lemma {:induction false} EscapeOfEscaped(b: Byte, rest: seq<Byte>, limit: nat, used: nat)
    requires Stops(b)
    ensures Escaped(b)[0] == BACKSLASH && |Escaped(b)| > 1
    ensures Escape((Escaped(b) + rest)[1..], limit, used) == (if Room(limit, used, 1) then Got([b], rest) else Fail)
  {
    hide Room;
    var s := (Escaped(b) + rest)[1..];
    if |Escaped(b)| == 2 {
      assert s[0] == Escaped(b)[1] && s[1..] == rest;
    } else {
      HexOfDigit(b / 16);
      HexOfDigit(b % 16);
      assert s[1..][0] == 0x30 && s[1..][1] == 0x30 && s[1..][2] == HexDigit(b / 16) && s[1..][3] == HexDigit(b % 16);
      assert Hex4(s[1..]) == Some(b);
      assert Encoded(b) == [b];
      assert s[5..] == rest;
    }
  }

  // ---- One string ----

  lemma {:induction false} RoomFits(limit: nat, used: nat, count: nat)
    requires used <= limit < U64
    ensures Room(limit, used, count) <==> used + count <= limit
  {
  }

  /** How a text begins: a literal run up to its first special byte. */
  lemma {:induction false} FirstSpecial(text: seq<Byte>) returns (k: nat)
    ensures k <= |text| && AllLiteral(text[..k]) && (k < |text| ==> Stops(text[k]))
  {
    k := 0;
    while k < |text| && !Stops(text[k])
      invariant k <= |text| && AllLiteral(text[..k])
    {
      k := k + 1;
    }
  }

  /** The reader at the closing quote after a literal run. */
  lemma {:induction false} UnescapeEnd(run: seq<Byte>, rest: seq<Byte>, limit: nat, used: nat)
    requires AllLiteral(run) && IsUtf8(run)
    ensures Unescape(run + ([QUOTE] + rest), limit, used) == (if Room(limit, used, |run|) then Got(run, rest) else Fail)
  {
    hide Room, IsUtf8, Escape;
    RunStopsAt(run, [QUOTE] + rest);
    var s := run + ([QUOTE] + rest);
    assert s[|run| + 1..] == rest;
  }

  /** The reader at a backslash after a literal run. */
  lemma {:induction false} UnescapeStep(run: seq<Byte>, t: seq<Byte>, limit: nat, used: nat)
    requires AllLiteral(run) && IsUtf8(run) && t != [] && t[0] == BACKSLASH && Room(limit, used, |run|)
    ensures var piece := Escape(t[1..], limit, used + |run|);
            piece.Fail? ==> Unescape(run + t, limit, used).Fail?
    ensures (var piece := Escape(t[1..], limit, used + |run|);
             piece.Got? ==>
               (var more := Unescape(piece.rest, limit, used + |run| + |piece.value|);
                Unescape(run + t, limit, used)
                == (if more.Fail? then Fail else Got(run + piece.value + more.value, more.rest))))
  {
    hide Room, IsUtf8, Escape;
    RunStopsAt(run, t);
    assert (run + t)[|run| + 1..] == t[1..];
  }

  /** A run that is not text, a control byte, or the end of the input. */
  lemma {:induction false} UnescapeStuck(run: seq<Byte>, t: seq<Byte>, limit: nat, used: nat)
    requires AllLiteral(run) && (t == [] || Stops(t[0]))
    requires t == [] || t[0] < 0x20 || !IsUtf8(run) || !Room(limit, used, |run|)
    ensures Unescape(run + t, limit, used).Fail?
  {
    hide Room, IsUtf8, Escape;
    if t == [] {
      assert run + t == run;
      RunIsWhole(run);
    } else {
      RunStopsAt(run, t);
    }
  }

  lemma {:induction false} RunIsWhole(run: seq<Byte>)
    requires AllLiteral(run)
    ensures RunLength(run) == |run|
  {
    if run != [] {
      RunIsWhole(run[1..]);
    }
  }

  /** The spelling of a text from its first special byte on. */
  lemma {:induction false} SpelledFrom(run: seq<Byte>, b: Byte, later: seq<Byte>, tail: seq<Byte>)
    requires AllLiteral(run)
    ensures EscapeAll(run + [b] + later) + tail == run + (Escaped(b) + (EscapeAll(later) + tail))
  {
    hide Escaped;
    LiteralIsUnescaped(run);
    EscapeAllConcat(run + [b], later);
    EscapeAllConcat(run, [b]);
    assert EscapeAll([b]) == Escaped(b) + EscapeAll([]);
    AppendFour(run, Escaped(b), EscapeAll(later), tail);
  }

  lemma AppendFour<T>(a: seq<T>, b: seq<T>, c: seq<T>, d: seq<T>)
    ensures a + b + c + d == a + (b + (c + d))
  {
  }

  /** Quoting is undone, and the limit is on the text, not on its spelling. */
  lemma {:induction false} UnescapeEscaped(text: seq<Byte>, rest: seq<Byte>, limit: nat, used: nat)
    requires IsUtf8(text) && used <= limit < U64
    ensures Unescape(EscapeAll(text) + ([QUOTE] + rest), limit, used)
         == (if used + |text| <= limit then Got(text, rest) else Fail)
    decreases |text|
  {
    hide Unescape, EscapeAll, Escaped, Escape, Room, IsUtf8;
    var k := FirstSpecial(text);
    var run := text[..k];
    RoomFits(limit, used, k);
    if k == |text| {
      assert text == run;
      LiteralIsUnescaped(run);
      UnescapeEnd(run, rest, limit, used);
    } else {
      var b, later := text[k], text[k + 1..];
      assert text == run + [b] + later;
      SpecialIsAscii(b);
      SplitText(text, k);
      var tail := EscapeAll(later) + ([QUOTE] + rest);
      SpelledFrom(run, b, later, [QUOTE] + rest);
      EscapeOfEscaped(b, tail, limit, used + k);
      var t := Escaped(b) + tail;
      if used + k <= limit {
        RoomFits(limit, used + k, 1);
        UnescapeStep(run, t, limit, used);
        if used + k + 1 <= limit {
          UnescapeEscaped(later, rest, limit, used + k + 1);
        }
      } else {
        UnescapeStuck(run, t, limit, used);
      }
    }
  }

  lemma SpecialIsAscii(b: Byte)
    requires Stops(b)
    ensures b < 0x80
  {
  }

  // ---- One value ----

  /** The first byte of anything the writer makes. */
  predicate Begins(s: seq<Byte>) {
    s != [] && (s[0] == QUOTE || s[0] == OPEN_ARRAY || s[0] == OPEN_OBJECT)
  }

  predicate NotSpace(s: seq<Byte>) {
    s != [] && s[0] > 0x20
  }

  lemma {:induction false} NothingSkipped(s: seq<Byte>)
    requires NotSpace(s)
    ensures SkipSpace(s) == s
  {
  }

  lemma {:induction false} PrintBegins(v: Value, rest: seq<Byte>)
    requires Writable(v)
    ensures Begins(Print(v) + rest) && NotSpace(Print(v) + rest)
  {
  }

  lemma {:induction false} ParseText(t: seq<Byte>, depth: nat, budget: nat)
    requires budget > 0
    ensures (var r := Unescape(t, MAX_TEXT, 0);
             ParseValue([QUOTE] + t, depth, budget)
             == (if r.Fail? then Fail else Got(Spent(String(r.value), budget - 1), r.rest)))
  {
    hide Unescape, ParseElements, ParseMembers, ParseScalar;
    NothingSkipped([QUOTE] + t);
    assert ([QUOTE] + t)[1..] == t;
  }

  lemma {:induction false} ParseArray(t: seq<Byte>, depth: nat, budget: nat)
    requires budget > 0
    ensures depth >= MAX_DEPTH ==> ParseValue([OPEN_ARRAY] + t, depth, budget).Fail?
    ensures depth < MAX_DEPTH && t != [] && t[0] == CLOSE_ARRAY ==>
      ParseValue([OPEN_ARRAY] + t, depth, budget) == Got(Spent(Array([]), budget - 1), t[1..])
    ensures depth < MAX_DEPTH && (t == [] || t[0] != CLOSE_ARRAY) ==>
      ParseValue([OPEN_ARRAY] + t, depth, budget) == ParseElements(t, depth, budget - 1, [])
  {
    hide Unescape, ParseElements, ParseMembers, ParseScalar;
    var s := [OPEN_ARRAY] + t;
    NothingSkipped(s);
    assert s[1..] == t && (t != [] ==> s[2..] == t[1..]);
  }

  lemma {:induction false} ParseObject(t: seq<Byte>, depth: nat, budget: nat)
    requires budget > 0
    ensures depth >= MAX_DEPTH ==> ParseValue([OPEN_OBJECT] + t, depth, budget).Fail?
    ensures depth < MAX_DEPTH && t != [] && t[0] == CLOSE_OBJECT ==>
      ParseValue([OPEN_OBJECT] + t, depth, budget) == Got(Spent(Object([]), budget - 1), t[1..])
    ensures depth < MAX_DEPTH && (t == [] || t[0] != CLOSE_OBJECT) ==>
      ParseValue([OPEN_OBJECT] + t, depth, budget) == ParseMembers(t, depth, budget - 1, [])
  {
    hide Unescape, ParseElements, ParseMembers, ParseScalar;
    var s := [OPEN_OBJECT] + t;
    NothingSkipped(s);
    assert s[1..] == t && (t != [] ==> s[2..] == t[1..]);
  }

  /** After the last element, and after one that is not the last. */
  lemma {:induction false} ElementsStep(s: seq<Byte>, depth: nat, budget: nat, done: seq<Value>, tail: seq<Byte>)
    requires NotSpace(s) && |done| < MAX_CONTAINER
    requires var r := ParseValue(s, depth + 1, budget); r.Got? ==> r.rest == tail
    ensures var r := ParseValue(s, depth + 1, budget);
            && (r.Fail? ==> ParseElements(s, depth, budget, done).Fail?)
            && (r.Got? && tail != [] && tail[0] == CLOSE_ARRAY ==>
                  ParseElements(s, depth, budget, done)
                  == Got(Spent(Array(done + [r.value.value]), r.value.budget), tail[1..]))
            && (r.Got? && tail != [] && tail[0] == COMMA && Begins(tail[1..]) ==>
                  ParseElements(s, depth, budget, done)
                  == ParseElements(tail[1..], depth, r.value.budget, done + [r.value.value]))
  {
    hide ParseValue, Unescape, ParseMembers, ParseScalar;
    NothingSkipped(s);
    if tail != [] && tail[0] == CLOSE_ARRAY {
      NothingSkipped(tail);
    }
    if tail != [] && tail[0] == COMMA && Begins(tail[1..]) {
      NothingSkipped(tail);
      NothingSkipped(tail[1..]);
    }
  }

  lemma {:induction false} KeyStep(key: seq<Byte>, tail: seq<Byte>)
    requires IsUtf8(key) && NotSpace(tail)
    ensures ParseKey(Quote(key) + ([COLON] + tail)) == (if |key| <= MAX_KEY then Got(key, tail) else Fail)
  {
    hide Unescape, EscapeAll, IsUtf8;
    UnescapeEscaped(key, [COLON] + tail, MAX_KEY, 0);
    var s := Quote(key) + ([COLON] + tail);
    assert s[1..] == EscapeAll(key) + ([QUOTE] + ([COLON] + tail));
    NothingSkipped([COLON] + tail);
    assert ([COLON] + tail)[1..] == tail;
    NothingSkipped(tail);
  }

  lemma {:induction false} MembersStep(s: seq<Byte>, key: seq<Byte>, mid: seq<Byte>, depth: nat, budget: nat,
                                       done: seq<Member>, tail: seq<Byte>)
    requires NotSpace(s) && |done| < MAX_CONTAINER
    requires ParseKey(s) == Got(key, mid)
    requires var r := ParseValue(mid, depth + 1, budget); r.Got? ==> r.rest == tail
    ensures var r := ParseValue(mid, depth + 1, budget);
            && (r.Fail? || HasKey(done, key) ==> ParseMembers(s, depth, budget, done).Fail?)
            && (r.Got? && !HasKey(done, key) && tail != [] && tail[0] == CLOSE_OBJECT ==>
                  ParseMembers(s, depth, budget, done)
                  == Got(Spent(Object(done + [Member(key, r.value.value)]), r.value.budget), tail[1..]))
            && (r.Got? && !HasKey(done, key) && tail != [] && tail[0] == COMMA && Begins(tail[1..]) ==>
                  ParseMembers(s, depth, budget, done)
                  == ParseMembers(tail[1..], depth, r.value.budget, done + [Member(key, r.value.value)]))
  {
    hide ParseValue, ParseKey, Unescape, ParseElements, ParseScalar, HasKey;
    NothingSkipped(s);
    if tail != [] && tail[0] == CLOSE_OBJECT {
      NothingSkipped(tail);
    }
    if tail != [] && tail[0] == COMMA && Begins(tail[1..]) {
      NothingSkipped(tail);
      NothingSkipped(tail[1..]);
    }
  }

  lemma {:induction false} MembersKeyFails(s: seq<Byte>, depth: nat, budget: nat, done: seq<Member>)
    requires NotSpace(s) && ParseKey(s).Fail?
    ensures ParseMembers(s, depth, budget, done).Fail?
  {
    hide ParseValue, ParseKey, Unescape, ParseElements, ParseScalar, HasKey;
    NothingSkipped(s);
  }

  lemma AppendThree<T>(a: seq<T>, b: seq<T>, c: seq<T>)
    ensures a + b + c == a + (b + c)
  {
  }

  /** Reading a written value gives the value back, with the rest of the input
      and of the budget, exactly when the value keeps every limit. */
  lemma {:induction false} ParsePrint(v: Value, rest: seq<Byte>, depth: nat, budget: nat)
    requires Writable(v) && budget <= MAX_CONTAINER
    ensures ParseValue(Print(v) + rest, depth, budget)
         == (if Spend(v, depth, budget).Some? then Got(Spent(v, Spend(v, depth, budget).value), rest) else Fail)
    decreases v, 1
  {
    hide ParseValue, ParseElements, ParseMembers, Unescape, EscapeAll, IsUtf8, SpendAll, SpendMembers, PrintAll, PrintMembers;
    if budget == 0 {
      BudgetGone(Print(v) + rest, depth);
      return;
    }
    match v
    case String(text) =>
      UnescapeEscaped(text, rest, MAX_TEXT, 0);
      var t := EscapeAll(text) + ([QUOTE] + rest);
      assert Print(v) + rest == [QUOTE] + t;
      ParseText(t, depth, budget);
    case Array(elements) =>
      var t := PrintAll(elements) + ([CLOSE_ARRAY] + rest);
      assert Print(v) + rest == [OPEN_ARRAY] + t;
      if elements == [] {
        NoElements(depth + 1, budget - 1);
        assert t == [CLOSE_ARRAY] + rest;
        ParseArray(t, depth, budget);
      } else {
        PrintAllBegins(elements, [CLOSE_ARRAY] + rest);
        ParseArray(t, depth, budget);
        if depth < MAX_DEPTH {
          ParsePrintAll(elements, [], rest, depth, budget - 1);
          assert [] + elements == elements;
        }
      }
    case Object(members) =>
      var t := PrintMembers(members) + ([CLOSE_OBJECT] + rest);
      assert Print(v) + rest == [OPEN_OBJECT] + t;
      if members == [] {
        NoElements(depth + 1, budget - 1);
        assert t == [CLOSE_OBJECT] + rest;
        ParseObject(t, depth, budget);
      } else {
        PrintMembersBegins(members, [CLOSE_OBJECT] + rest);
        ParseObject(t, depth, budget);
        if depth < MAX_DEPTH {
          ParsePrintMembers(members, [], rest, depth, budget - 1);
          assert [] + members == members;
        }
      }
  }

  lemma {:induction false} BudgetGone(s: seq<Byte>, depth: nat)
    ensures ParseValue(s, depth, 0).Fail?
  {
  }

  lemma {:induction false} NoElements(depth: nat, budget: nat)
    ensures PrintAll([]) == [] && PrintMembers([]) == []
    ensures SpendAll([], depth, budget) == Some(budget)
    ensures SpendMembers([], [], depth, budget) == Some(budget)
  {
  }

  lemma {:induction false} PrintAllBegins(vs: seq<Value>, rest: seq<Byte>)
    requires vs != [] && Writable(vs[0])
    ensures Begins(PrintAll(vs) + rest) && NotSpace(PrintAll(vs) + rest)
  {
    PrintBegins(vs[0], []);
    assert Print(vs[0]) + [] == Print(vs[0]);
  }

  lemma {:induction false} PrintMembersBegins(ms: seq<Member>, rest: seq<Byte>)
    requires ms != []
    ensures Begins(PrintMembers(ms) + rest) && NotSpace(PrintMembers(ms) + rest)
    ensures (PrintMembers(ms) + rest)[0] == QUOTE
  {
  }

  /** One element of the printed list and what follows it. */
  lemma {:induction false} PrintAllSplits(vs: seq<Value>, rest: seq<Byte>) returns (tail: seq<Byte>)
    requires vs != []
    ensures PrintAll(vs) + rest == Print(vs[0]) + tail
    ensures |vs| == 1 ==> tail == rest
    ensures |vs| > 1 ==> tail == [COMMA] + (PrintAll(vs[1..]) + rest)
  {
    hide Print;
    if |vs| == 1 {
      tail := rest;
      assert Print(vs[0]) + [] == Print(vs[0]);
    } else {
      tail := [COMMA] + (PrintAll(vs[1..]) + rest);
      AppendFour(Print(vs[0]), [COMMA], PrintAll(vs[1..]), rest);
      AppendThree(Print(vs[0]), [COMMA], PrintAll(vs[1..]));
    }
  }

  lemma {:induction false} ParsePrintAll(vs: seq<Value>, done: seq<Value>, rest: seq<Byte>, depth: nat, budget: nat)
    requires vs != [] && (forall i :: 0 <= i < |vs| ==> Writable(vs[i]))
    requires |done| + budget <= MAX_CONTAINER
    ensures ParseElements(PrintAll(vs) + ([CLOSE_ARRAY] + rest), depth, budget, done)
         == (if SpendAll(vs, depth + 1, budget).Some?
             then Got(Spent(Array(done + vs), SpendAll(vs, depth + 1, budget).value), rest) else Fail)
    decreases vs, 0
  {
    hide ParseValue, ParseElements, ParseMembers, Unescape, Print, PrintAll, Spend, Writable;
    var end := [CLOSE_ARRAY] + rest;
    var tail := PrintAllSplits(vs, end);
    var s := PrintAll(vs) + end;
    PrintAllBegins(vs, end);
    if budget == 0 {
      BudgetGone(s, depth + 1);
      SpendNothing(vs[0], depth + 1);
      ElementsEmpty(s, depth, done);
      return;
    }
    ParsePrint(vs[0], tail, depth + 1, budget);
    var left := Spend(vs[0], depth + 1, budget);
    ElementsStep(s, depth, budget, done, tail);
    if left.Some? {
      if |vs| == 1 {
        assert vs == [vs[0]] && SpendAll(vs[1..], depth + 1, left.value) == left;
        assert tail[1..] == rest;
      } else {
        SpendShrinks(vs[0], depth + 1, budget);
        PrintAllBegins(vs[1..], end);
        assert tail[1..] == PrintAll(vs[1..]) + end;
        ParsePrintAll(vs[1..], done + [vs[0]], rest, depth, left.value);
        assert done + [vs[0]] + vs[1..] == done + vs;
      }
    }
  }

  lemma {:induction false} SpendNothing(v: Value, depth: nat)
    ensures Spend(v, depth, 0).None?
  {
  }

  lemma {:induction false} SpendShrinks(v: Value, depth: nat, budget: nat)
    ensures Spend(v, depth, budget).Some? ==> Spend(v, depth, budget).value < budget
  {
  }

  lemma {:induction false} ElementsEmpty(s: seq<Byte>, depth: nat, done: seq<Value>)
    ensures ParseElements(s, depth, 0, done).Fail?
  {
  }

  lemma {:induction false} PrintMembersSplits(ms: seq<Member>, rest: seq<Byte>) returns (tail: seq<Byte>)
    requires ms != []
    ensures PrintMembers(ms) + rest == Quote(ms[0].key) + ([COLON] + (Print(ms[0].value) + tail))
    ensures |ms| == 1 ==> tail == rest
    ensures |ms| > 1 ==> tail == [COMMA] + (PrintMembers(ms[1..]) + rest)
  {
    hide Print, Quote;
    var key, value := Quote(ms[0].key), Print(ms[0].value);
    if |ms| == 1 {
      tail := rest;
      assert PrintMembers(ms) == key + ([COLON] + value) + [];
    } else {
      tail := [COMMA] + (PrintMembers(ms[1..]) + rest);
      AppendFour(PrintMember(ms[0]), [COMMA], PrintMembers(ms[1..]), rest);
      AppendThree(PrintMember(ms[0]), [COMMA], PrintMembers(ms[1..]));
    }
    AppendFour(key, [COLON], value, tail);
    AppendThree(key, [COLON], value);
  }

  lemma {:induction false} ParsePrintMembers(ms: seq<Member>, done: seq<Member>, rest: seq<Byte>, depth: nat, budget: nat)
    requires ms != [] && (forall i :: 0 <= i < |ms| ==> IsUtf8(ms[i].key) && Writable(ms[i].value))
    requires |done| + budget <= MAX_CONTAINER
    ensures ParseMembers(PrintMembers(ms) + ([CLOSE_OBJECT] + rest), depth, budget, done)
         == (if SpendMembers(ms, done, depth + 1, budget).Some?
             then Got(Spent(Object(done + ms), SpendMembers(ms, done, depth + 1, budget).value), rest) else Fail)
    decreases ms, 0
  {
    hide ParseValue, ParseElements, ParseMembers, ParseKey, Unescape, Print, PrintMembers, Spend, Writable, Quote, IsUtf8, HasKey;
    var end := [CLOSE_OBJECT] + rest;
    var tail := PrintMembersSplits(ms, end);
    var s := PrintMembers(ms) + end;
    PrintMembersBegins(ms, end);
    var mid := Print(ms[0].value) + tail;
    PrintBegins(ms[0].value, tail);
    KeyStep(ms[0].key, mid);
    if |ms[0].key| > MAX_KEY {
      MembersKeyFails(s, depth, budget, done);
      return;
    }
    if budget == 0 {
      SpendNothing(ms[0].value, depth + 1);
      MembersEmpty(s, depth, done);
      return;
    }
    ParsePrint(ms[0].value, tail, depth + 1, budget);
    var left := Spend(ms[0].value, depth + 1, budget);
    MembersStep(s, ms[0].key, mid, depth, budget, done, tail);
    if left.Some? && !HasKey(done, ms[0].key) {
      assert ms[0] == Member(ms[0].key, ms[0].value);
      if |ms| == 1 {
        assert ms == [ms[0]] && SpendMembers(ms[1..], done + [ms[0]], depth + 1, left.value) == left;
        assert tail[1..] == rest;
      } else {
        SpendShrinks(ms[0].value, depth + 1, budget);
        PrintMembersBegins(ms[1..], end);
        assert tail[1..] == PrintMembers(ms[1..]) + end;
        ParsePrintMembers(ms[1..], done + [ms[0]], rest, depth, left.value);
        assert done + [ms[0]] + ms[1..] == done + ms;
      }
    }
  }

  lemma {:induction false} MembersEmpty(s: seq<Byte>, depth: nat, done: seq<Member>)
    ensures ParseMembers(s, depth, 0, done).Fail?
  {
    hide ParseKey;
  }

  /** What the reader's limits allow of a written value. */
  predicate KeepsLimits(v: Value) {
    |Print(v)| <= MAX_INPUT && Spend(v, 0, MAX_ELEMENTS).Some?
  }

  /** Reading a written document gives its value back exactly when it keeps the
      limits, and nothing otherwise. */
  lemma {:induction false} DocumentOfPrint(v: Value)
    requires Writable(v)
    ensures Document(Print(v)) == if KeepsLimits(v) then Some(v) else None
  {
    hide Print, ParseValue, Writable, Spend;
    ParsePrint(v, [], 0, MAX_ELEMENTS);
    PrintBegins(v, []);
    assert Print(v) + [] == Print(v);
  }

  /** Writing is one to one on what the reader accepts. */
  lemma {:induction false} PrintIsInjective(v: Value, w: Value)
    requires Writable(v) && Writable(w) && KeepsLimits(v) && Print(v) == Print(w)
    ensures v == w
  {
    hide *;
    DocumentOfPrint(v);
    DocumentOfPrint(w);
  }

  // ---- The text limit ----

  /** The escape after a backslash is a surrogate pair. */
  predicate IsPair(s: seq<Byte>) {
    |s| > 0 && s[0] == LOWER_U && Hex4(s[1..]).Some? && 0xD800 <= Hex4(s[1..]).value <= 0xDFFF
  }

  /** Wherever the text escapes a surrogate pair, its four bytes fit the limit. */
  ghost predicate PairsFit(s: seq<Byte>, limit: nat, used: nat)
    decreases |s|
  {
    var n := RunLength(s);
    n < |s| && s[n] == BACKSLASH ==>
      var piece := Escape(s[n + 1..], limit, used + n);
      piece.Got? ==>
        && (IsPair(s[n + 1..]) ==> used + n + 4 <= limit)
        && PairsFit(piece.rest, limit, used + n + |piece.value|)
  }

  lemma {:induction false} EscapeFits(s: seq<Byte>, limit: nat, used: nat)
    requires Escape(s, limit, used).Got? && used <= limit < U64
    ensures IsPair(s) ==> |Escape(s, limit, used).value| == 4
    ensures !IsPair(s) ==> used + |Escape(s, limit, used).value| <= limit
  {
  }

  lemma {:induction false} UnescapeParts(s: seq<Byte>, limit: nat, used: nat)
    requires Unescape(s, limit, used).Got?
    ensures var n := RunLength(s);
            && n < |s| && Room(limit, used, n)
            && (s[n] == QUOTE ==> Unescape(s, limit, used).value == s[..n])
            && (s[n] != QUOTE ==> s[n] == BACKSLASH && Escape(s[n + 1..], limit, used + n).Got?)
            && (s[n] != QUOTE ==>
                  (var piece := Escape(s[n + 1..], limit, used + n);
                   var more := Unescape(piece.rest, limit, used + n + |piece.value|);
                   more.Got? && Unescape(s, limit, used).value == s[..n] + piece.value + more.value))
  {
    hide Escape, Room, IsUtf8;
    RunEnds(s);
  }

  lemma {:induction false} RunEnds(s: seq<Byte>)
    ensures RunLength(s) < |s| ==> Stops(s[RunLength(s)])
  {
    if s != [] && !Stops(s[0]) {
      RunEnds(s[1..]);
    }
  }

  /** The limit binds exactly when every escaped pair fits it: the one escape the
      reader does not measure is the one that can take a text past the limit. */
  lemma {:induction false} TextKeepsLimit(s: seq<Byte>, limit: nat, used: nat)
    requires Unescape(s, limit, used).Got? && used <= limit < U64
    ensures used + |Unescape(s, limit, used).value| <= limit <==> PairsFit(s, limit, used)
    decreases |s|
  {
    hide Unescape, Escape, Room, IsPair, IsUtf8;
    UnescapeParts(s, limit, used);
    var n := RunLength(s);
    RoomFits(limit, used, n);
    if s[n] != QUOTE {
      EscapeFits(s[n + 1..], limit, used + n);
      var piece := Escape(s[n + 1..], limit, used + n);
      if used + n + |piece.value| <= limit {
        TextKeepsLimit(piece.rest, limit, used + n + |piece.value|);
      }
    }
  }

  /** U+1F600 as two escapes and as bytes. */
  const PAIR: seq<Byte> := [BACKSLASH, LOWER_U, 0x64, 0x38, 0x33, 0x64, BACKSLASH, LOWER_U, 0x64, 0x65, 0x30, 0x30]
  const FACE: seq<Byte> := [0xF0, 0x9F, 0x98, 0x80]

  /** Inputs past any limit: a pair where fewer than four bytes are left, after which
      the test has wrapped and lets almost anything through. */
  lemma {:induction false} PairPassesLimit(run: seq<Byte>, more: seq<Byte>, rest: seq<Byte>, limit: nat)
    requires AllLiteral(run) && IsUtf8(run) && AllLiteral(more) && IsUtf8(more)
    requires |run| <= limit < |run| + 4 && limit < U64 && |more| <= U64 - 4
    ensures Unescape(run + (PAIR + (more + ([QUOTE] + rest))), limit, 0) == Got(run + FACE + more, rest)
    ensures |run + FACE + more| > limit
  {
    var tail := more + ([QUOTE] + rest);
    PairEscape(tail, limit, |run|);
    RoomFits(limit, 0, |run|);
    PastLimit(limit, |run|, |more|);
    PairStarts(tail);
    hide *;
    PassedBy(run, PAIR + tail, FACE, more, rest, limit);
  }

  lemma {:induction false} PassedBy(run: seq<Byte>, t: seq<Byte>, piece: seq<Byte>, more: seq<Byte>, rest: seq<Byte>, limit: nat)
    requires AllLiteral(run) && IsUtf8(run) && AllLiteral(more) && IsUtf8(more) && t != [] && t[0] == BACKSLASH
    requires Room(limit, 0, |run|) && Room(limit, |run| + |piece|, |more|)
    requires Escape(t[1..], limit, |run|) == Got(piece, more + ([QUOTE] + rest))
    ensures Unescape(run + t, limit, 0) == Got(run + piece + more, rest)
  {
    hide *;
    UnescapeStep(run, t, limit, 0);
    UnescapeEnd(more, rest, limit, |run| + |piece|);
  }

  lemma {:induction false} PastLimit(limit: nat, used: nat, count: nat)
    requires used <= limit < used + 4 && limit < U64 && count <= U64 - 4
    ensures Room(limit, used + 4, count)
  {
  }

  lemma {:induction false} PairStarts(tail: seq<Byte>)
    ensures PAIR + tail != [] && (PAIR + tail)[0] == BACKSLASH && |FACE| == 4
  {
  }

  /** For every limit there is such an input: text up to one byte below it, then the
      pair. */
  lemma {:induction false} EveryLimitIsPassed(limit: nat)
    requires 0 < limit < U64
    ensures var run := seq(limit - 1, i => 0x41);
            Unescape(run + (PAIR + ([] + ([QUOTE] + []))), limit, 0) == Got(run + FACE + [], [])
  {
    var run := seq(limit - 1, i => 0x41);
    AsciiIsText(run);
    AsciiIsText([]);
    PairPassesLimit(run, [], [], limit);
  }

  lemma {:induction false} PairEscape(tail: seq<Byte>, limit: nat, used: nat)
    ensures Escape((PAIR + tail)[1..], limit, used) == Got(FACE, tail)
  {
    var s := (PAIR + tail)[1..];
    var h, l := s[1..], s[7..];
    assert h[0] == 0x64 && h[1] == 0x38 && h[2] == 0x33 && h[3] == 0x64;
    assert Hex4(h) == Some(0xD83D);
    assert l[0] == 0x64 && l[1] == 0x65 && l[2] == 0x30 && l[3] == 0x30;
    assert Hex4(l) == Some(0xDE00);
    assert s[5] == BACKSLASH && s[6] == LOWER_U;
    assert s[11..] == tail;
    assert Encoded(0x1F600) == FACE;
  }
}
