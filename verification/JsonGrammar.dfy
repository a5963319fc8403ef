/** The grammar of strings, arrays and objects in sections 2 to 5 and 7 of RFC 8259,
    as layouts: a value with the choices its spelling leaves open, which are white
    space and escapes. Within the limits, a document spelled by a layout is read
    exactly if no empty container holds white space, and whatever is read is spelled
    by such a layout. */
module JsonGrammar {
  import opened Ids
  import opened Bytes
  import opened Fragments
  import opened Utf
  import opened Json
  import opened JsonLaws

  // ---- Layouts -----------------------------------------------------------

  /** One character of a string: itself, a short escape, or one or two escaped
      UTF-16 units. */
  datatype Char = Raw(c: Scalar) | Short(kind: Byte) | Unit(hex: seq<Byte>) | Pair(high: seq<Byte>, low: seq<Byte>)

  datatype Layout =
    | Text(chars: seq<Char>)
    | List(inside: seq<Byte>, cells: seq<Cell>)
    | Record(inside: seq<Byte>, entries: seq<Entry>)

  /** A value and the white space around it. */
  datatype Cell = Cell(before: seq<Byte>, layout: Layout, after: seq<Byte>)

  /** A key and a cell, the white space around the key, and a colon between them. */
  datatype Entry = Entry(before: seq<Byte>, key: seq<Char>, after: seq<Byte>, cell: Cell)

  predicate IsSpace(b: Byte) {
    b == 0x20 || b == 0x09 || b == 0x0A || b == 0x0D
  }

  predicate AllSpace(s: seq<Byte>) {
    forall i :: 0 <= i < |s| ==> IsSpace(s[i])
  }

  predicate IsUnit(hex: seq<Byte>, from: nat, below: nat) {
    |hex| == 4 && Hex4(hex).Some? && from <= Hex4(hex).value < below
  }

  predicate CharFits(ch: Char) {
    match ch
    case Raw(c) => c >= 0x20 && c != QUOTE && c != BACKSLASH
    case Short(kind) => SimpleEscape(kind).Some?
    case Unit(hex) => IsUnit(hex, 0, 0xD800) || IsUnit(hex, 0xE000, 0x1_0000)
    case Pair(high, low) => IsUnit(high, 0xD800, 0xDC00) && IsUnit(low, 0xDC00, 0xE000)
  }

  function SpellChar(ch: Char): (s: seq<Byte>)
    ensures s != []
  {
    match ch
    case Raw(c) => Encoded(c)
    case Short(kind) => [BACKSLASH, kind]
    case Unit(hex) => [BACKSLASH, LOWER_U] + hex
    case Pair(high, low) => [BACKSLASH, LOWER_U] + high + [BACKSLASH, LOWER_U] + low
  }

  /** The bytes of the character. */
  function CharText(ch: Char): seq<Byte>
    requires CharFits(ch)
  {
    match ch
    case Raw(c) => Encoded(c)
    case Short(kind) => [SimpleEscape(kind).value]
    case Unit(hex) => Encoded(Hex4(hex).value)
    case Pair(high, low) => Encoded(0x1_0000 + (Hex4(high).value - 0xD800) * 1024 + (Hex4(low).value - 0xDC00))
  }

  predicate CharsFit(chars: seq<Char>) {
    forall i :: 0 <= i < |chars| ==> CharFits(chars[i])
  }

  function SpellChars(chars: seq<Char>): seq<Byte> {
    if chars == [] then [] else SpellChar(chars[0]) + SpellChars(chars[1..])
  }

  function CharsText(chars: seq<Char>): seq<Byte>
    requires CharsFit(chars)
  {
    if chars == [] then [] else CharText(chars[0]) + CharsText(chars[1..])
  }

  function Quoted(chars: seq<Char>): seq<Byte> {
    [QUOTE] + (SpellChars(chars) + [QUOTE])
  }

  function Spell(l: Layout): seq<Byte> {
    match l
    case Text(chars) => Quoted(chars)
    case List(inside, cells) => [OPEN_ARRAY] + ((if cells == [] then inside else SpellCells(cells)) + [CLOSE_ARRAY])
    case Record(inside, entries) => [OPEN_OBJECT] + ((if entries == [] then inside else SpellEntries(entries)) + [CLOSE_OBJECT])
  }

  function SpellCell(c: Cell): seq<Byte> {
    c.before + (Spell(c.layout) + c.after)
  }

  function SpellCells(cells: seq<Cell>): seq<Byte> {
    if cells == [] then []
    else SpellCell(cells[0]) + (if |cells| == 1 then [] else [COMMA] + SpellCells(cells[1..]))
  }

  function SpellEntry(e: Entry): seq<Byte> {
    e.before + (Quoted(e.key) + (e.after + ([COLON] + SpellCell(e.cell))))
  }

  function SpellEntries(entries: seq<Entry>): seq<Byte> {
    if entries == [] then []
    else SpellEntry(entries[0]) + (if |entries| == 1 then [] else [COMMA] + SpellEntries(entries[1..]))
  }

  ghost predicate Fits(l: Layout) {
    match l
    case Text(chars) => CharsFit(chars)
    case List(inside, cells) => AllSpace(inside) && CellsFit(cells)
    case Record(inside, entries) => AllSpace(inside) && EntriesFit(entries)
  }

  ghost predicate CellFits(c: Cell) {
    AllSpace(c.before) && Fits(c.layout) && AllSpace(c.after)
  }

  ghost predicate EntryFits(e: Entry) {
    AllSpace(e.before) && CharsFit(e.key) && AllSpace(e.after) && CellFits(e.cell)
  }

  ghost predicate CellsFit(cells: seq<Cell>) {
    forall i :: 0 <= i < |cells| ==> CellFits(cells[i])
  }

  ghost predicate EntriesFit(entries: seq<Entry>) {
    forall i :: 0 <= i < |entries| ==> EntryFits(entries[i])
  }

  /** No empty container holds white space. */
  ghost predicate Tight(l: Layout) {
    match l
    case Text(_) => true
    case List(inside, cells) => (cells == [] ==> inside == []) && CellsTight(cells)
    case Record(inside, entries) => (entries == [] ==> inside == []) && EntriesTight(entries)
  }

  ghost predicate CellsTight(cells: seq<Cell>) {
    forall i :: 0 <= i < |cells| ==> Tight(cells[i].layout)
  }

  ghost predicate EntriesTight(entries: seq<Entry>) {
    forall i :: 0 <= i < |entries| ==> Tight(entries[i].cell.layout)
  }

  function ValueOf(l: Layout): Value
    requires Fits(l)
  {
    match l
    case Text(chars) => String(CharsText(chars))
    case List(_, cells) => Array(ValuesOf(cells))
    case Record(_, entries) => Object(MembersOf(entries))
  }

  function ValuesOf(cells: seq<Cell>): seq<Value>
    requires CellsFit(cells)
  {
    if cells == [] then []
    else
      assert CellFits(cells[0]);
      [ValueOf(cells[0].layout)] + ValuesOf(cells[1..])
  }

  function MembersOf(entries: seq<Entry>): seq<Member>
    requires EntriesFit(entries)
  {
    if entries == [] then []
    else
      assert EntryFits(entries[0]) && CellFits(entries[0].cell);
      [Member(CharsText(entries[0].key), ValueOf(entries[0].cell.layout))] + MembersOf(entries[1..])
  }

  // ---- Strings -----------------------------------------------------------

  lemma {:induction false} RawIsLiteral(c: Scalar)
    requires CharFits(Raw(c))
    ensures AllLiteral(Encoded(c)) && IsUtf8(Encoded(c))
  {
    assert Utf8([c]) == Encoded(c) + Utf8([]);
  }

  lemma {:induction false} RunAfterRaw(a: seq<Byte>, t: seq<Byte>)
    requires AllLiteral(a)
    ensures RunLength(a + t) == |a| + RunLength(t)
  {
    if a == [] {
      assert a + t == t;
    } else {
      assert (a + t)[1..] == a[1..] + t;
      RunAfterRaw(a[1..], t);
    }
  }

  lemma {:induction false} TextAfterRaw(c: Scalar, run: seq<Byte>)
    ensures IsUtf8(Encoded(c) + run) <==> IsUtf8(run)
  {
    OneScalar(c);
    if IsUtf8(run) {
      var cs :| Utf8(cs) == run;
      Utf8Append([c], cs);
      assert Utf8([c] + cs) == Encoded(c) + run;
    }
    if IsUtf8(Encoded(c) + run) {
      var cs :| Utf8(cs) == Encoded(c) + run;
      Utf8GoesOn([c], cs, run);
    }
  }

  lemma {:induction false} OneScalar(c: Scalar)
    ensures Utf8([c]) == Encoded(c)
  {
    assert Utf8([c]) == Encoded(c) + Utf8([]);
  }

  /** What the reader does at the end of a literal run. */
  ghost function AtRunEnd(run: seq<Byte>, t: seq<Byte>, limit: nat, used: nat): Parsed<seq<Byte>> {
    if t == [] || t[0] < 0x20 || !IsUtf8(run) || !Room(limit, used, |run|) then Fail
    else if t[0] == QUOTE then Got(run, t[1..])
    else
      var piece := Escape(t[1..], limit, used + |run|);
      if piece.Fail? then Fail
      else
        var more := Unescape(piece.rest, limit, used + |run| + |piece.value|);
        if more.Fail? then Fail else Got(run + piece.value + more.value, more.rest)
  }

  lemma {:induction false} UnescapeIs(s: seq<Byte>, limit: nat, used: nat)
    ensures Unescape(s, limit, used) == AtRunEnd(s[..RunLength(s)], s[RunLength(s)..], limit, used)
  {
    hide RunLength, Escape, IsUtf8, Room;
    var n := RunLength(s);
    if n < |s| { assert s[n..][0] == s[n] && s[n..][1..] == s[n + 1..]; }
  }

  lemma {:induction false} RunEndRaw(c: Scalar, run: seq<Byte>, t: seq<Byte>, limit: nat, used: nat)
    requires used + |Encoded(c)| <= limit < U64
    ensures var r := AtRunEnd(run, t, limit, used + |Encoded(c)|);
            AtRunEnd(Encoded(c) + run, t, limit, used) == if r.Fail? then Fail else Got(Encoded(c) + r.value, r.rest)
  {
    hide *;
    var a := Encoded(c);
    TextAfterRaw(c, run);
    RoomFits(limit, used, |a + run|);
    RoomFits(limit, used + |a|, |run|);
    if t != [] && t[0] >= 0x20 && t[0] != QUOTE {
      EscapedRaw(a, run, t, limit, used);
    } else {
      EndedRaw(a, run, t, limit, used);
    }
  }

  lemma {:induction false} EndedRaw(a: seq<Byte>, run: seq<Byte>, t: seq<Byte>, limit: nat, used: nat)
    requires t == [] || t[0] < 0x20 || t[0] == QUOTE
    requires (IsUtf8(a + run) <==> IsUtf8(run)) && (Room(limit, used, |a + run|) <==> Room(limit, used + |a|, |run|))
    ensures var r := AtRunEnd(run, t, limit, used + |a|);
            AtRunEnd(a + run, t, limit, used) == if r.Fail? then Fail else Got(a + r.value, r.rest)
  {
    hide IsUtf8, Escape, Unescape, Room;
  }

  lemma {:induction false} EscapedRaw(a: seq<Byte>, run: seq<Byte>, t: seq<Byte>, limit: nat, used: nat)
    requires t != [] && t[0] >= 0x20 && t[0] != QUOTE
    requires (IsUtf8(a + run) <==> IsUtf8(run)) && (Room(limit, used, |a + run|) <==> Room(limit, used + |a|, |run|))
    ensures var r := AtRunEnd(run, t, limit, used + |a|);
            AtRunEnd(a + run, t, limit, used) == if r.Fail? then Fail else Got(a + r.value, r.rest)
  {
    hide IsUtf8, Escape, Unescape, Room;
    assert used + |a + run| == used + |a| + |run|;
    var piece := Escape(t[1..], limit, used + |a| + |run|);
    if piece.Got? {
      var more := Unescape(piece.rest, limit, used + |a| + |run| + |piece.value|);
      if more.Got? { AppendFour(a, run, piece.value, more.value); AppendThree(run, piece.value, more.value); }
    }
  }

  /** A character that stands for itself is taken over. */
  lemma {:induction false} UnescapeRaw(c: Scalar, t: seq<Byte>, limit: nat, used: nat)
    requires CharFits(Raw(c)) && used + |Encoded(c)| <= limit < U64
    ensures var r := Unescape(t, limit, used + |Encoded(c)|);
            Unescape(Encoded(c) + t, limit, used) == if r.Fail? then Fail else Got(Encoded(c) + r.value, r.rest)
  {
    hide *;
    RawIsLiteral(c);
    var a, n := Encoded(c), RunLength(t);
    RunAfterRaw(a, t);
    UnescapeIs(t, limit, used + |a|);
    UnescapeIs(a + t, limit, used);
    assert (a + t)[..|a| + n] == a + t[..n] && (a + t)[|a| + n..] == t[n..];
    RunEndRaw(c, t[..n], t[n..], limit, used);
  }

  lemma {:induction false} HexPrefix(hex: seq<Byte>, rest: seq<Byte>)
    requires |hex| == 4
    ensures Hex4(hex + rest) == Hex4(hex)
  {
    hide HexValue;
  }

  lemma {:induction false} EscapeShort(kind: Byte, t: seq<Byte>, limit: nat, used: nat)
    requires SimpleEscape(kind).Some? && used + 1 <= limit < U64
    ensures Escape([kind] + t, limit, used) == Got([SimpleEscape(kind).value], t)
  {
    RoomFits(limit, used, 1);
    NoUnicodeEscape(kind);
    hide SimpleEscape, Room, Hex4, Encoded;
    assert ([kind] + t)[1..] == t;
  }

  lemma {:induction false} EscapeUnit(hex: seq<Byte>, t: seq<Byte>, limit: nat, used: nat)
    requires CharFits(Unit(hex)) && used + |Encoded(Hex4(hex).value)| <= limit < U64
    ensures Escape([LOWER_U] + (hex + t), limit, used) == Got(Encoded(Hex4(hex).value), t)
  {
    RoomFits(limit, used, |Encoded(Hex4(hex).value)|);
    HexPrefix(hex, t);
    hide SimpleEscape, Room, Hex4, Encoded;
    var s := [LOWER_U] + (hex + t);
    assert s[1..] == hex + t && s[5..] == t;
  }

  lemma {:induction false} EscapePair(high: seq<Byte>, low: seq<Byte>, t: seq<Byte>, limit: nat, used: nat)
    requires CharFits(Pair(high, low))
    ensures Escape([LOWER_U] + (high + ([BACKSLASH, LOWER_U] + (low + t))), limit, used) == Got(CharText(Pair(high, low)), t)
  {
    var later := [BACKSLASH, LOWER_U] + (low + t);
    HexPrefix(high, later);
    HexPrefix(low, t);
    hide SimpleEscape, Room, Hex4, Encoded;
    var s := [LOWER_U] + (high + later);
    assert s[1..] == high + later && s[5] == BACKSLASH && s[6] == LOWER_U;
    assert s[7..] == low + t && s[11..] == t;
  }

  /** An escape is undone. A pair is taken whether or not there is room. */
  lemma {:induction false} EscapeOfChar(ch: Char, t: seq<Byte>, limit: nat, used: nat)
    requires CharFits(ch) && !ch.Raw? && used + |CharText(ch)| <= limit < U64
    ensures SpellChar(ch)[0] == BACKSLASH && Escape((SpellChar(ch) + t)[1..], limit, used) == Got(CharText(ch), t)
  {
    hide *;
    EscapeParts(ch);
    EscapeTail(ch, t);
    match ch {
      case Short(kind) => EscapeShort(kind, t, limit, used);
      case Unit(hex) => EscapeUnit(hex, t, limit, used);
      case Pair(high, low) => EscapePair(high, low, t, limit, used);
    }
  }

  /** What follows the backslash. */
  lemma {:induction false} EscapeTail(ch: Char, t: seq<Byte>)
    requires !ch.Raw?
    ensures SpellChar(ch)[0] == BACKSLASH
    ensures ch.Short? ==> (SpellChar(ch) + t)[1..] == [ch.kind] + t
    ensures ch.Unit? ==> (SpellChar(ch) + t)[1..] == [LOWER_U] + (ch.hex + t)
    ensures ch.Pair? ==> (SpellChar(ch) + t)[1..] == [LOWER_U] + (ch.high + ([BACKSLASH, LOWER_U] + (ch.low + t)))
  {
    if ch.Pair? { PairTail(ch.high, ch.low, t); }
  }

  lemma {:induction false} PairTail(high: seq<Byte>, low: seq<Byte>, t: seq<Byte>)
    ensures ([BACKSLASH, LOWER_U] + high + [BACKSLASH, LOWER_U] + low + t)[1..] == [LOWER_U] + (high + ([BACKSLASH, LOWER_U] + (low + t)))
  {
    var mid := [BACKSLASH, LOWER_U];
    AppendFour(mid + high, mid, low, t);
    AppendThree(mid, high, mid + (low + t));
    assert (mid + (high + (mid + (low + t))))[1..] == [LOWER_U] + (high + (mid + (low + t)));
  }

  lemma {:induction false} EscapeParts(ch: Char)
    requires CharFits(ch)
    ensures ch.Short? ==> SimpleEscape(ch.kind).Some? && CharText(ch) == [SimpleEscape(ch.kind).value] && SpellChar(ch) == [BACKSLASH, ch.kind]
    ensures ch.Unit? ==> Hex4(ch.hex).Some? && CharText(ch) == Encoded(Hex4(ch.hex).value) && SpellChar(ch) == [BACKSLASH, LOWER_U] + ch.hex
    ensures ch.Pair? ==> SpellChar(ch) == [BACKSLASH, LOWER_U] + ch.high + [BACKSLASH, LOWER_U] + ch.low
  {
    hide Hex4, Encoded, SimpleEscape;
  }

  lemma {:induction false} NoUnicodeEscape(kind: Byte)
    requires SimpleEscape(kind).Some?
    ensures kind != LOWER_U
  {
  }

  lemma {:induction false} UnescapeChar(ch: Char, t: seq<Byte>, limit: nat, used: nat)
    requires CharFits(ch) && used + |CharText(ch)| <= limit < U64
    ensures var r := Unescape(t, limit, used + |CharText(ch)|);
            Unescape(SpellChar(ch) + t, limit, used) == if r.Fail? then Fail else Got(CharText(ch) + r.value, r.rest)
  {
    hide *;
    if ch.Raw? {
      RawParts(ch.c);
      UnescapeRaw(ch.c, t, limit, used);
    } else {
      var s := SpellChar(ch) + t;
      EscapeOfChar(ch, t, limit, used);
      RoomFits(limit, used, 0);
      NoText();
      assert s != [] && s[0] == BACKSLASH;
      UnescapeIs(s, limit, used);
      NoRun(s);
      EscapedAtEnd(s, CharText(ch), t, limit, used);
      assert s[..0] == [] && s[0..] == s;
    }
  }

  lemma {:induction false} RawParts(c: Scalar)
    requires CharFits(Raw(c))
    ensures SpellChar(Raw(c)) == Encoded(c) && CharText(Raw(c)) == Encoded(c)
  {
  }

  lemma {:induction false} NoRun(s: seq<Byte>)
    requires s != [] && s[0] == BACKSLASH
    ensures RunLength(s) == 0
  {
  }

  lemma {:induction false} EscapedAtEnd(s: seq<Byte>, piece: seq<Byte>, t: seq<Byte>, limit: nat, used: nat)
    requires s != [] && s[0] == BACKSLASH && IsUtf8([]) && Room(limit, used, 0) && Escape(s[1..], limit, used) == Got(piece, t)
    ensures var r := Unescape(t, limit, used + |piece|);
            AtRunEnd([], s, limit, used) == if r.Fail? then Fail else Got(piece + r.value, r.rest)
  {
    hide IsUtf8, Room, Escape, Unescape;
    assert [] + piece == piece;
  }

  lemma {:induction false} NoText()
    ensures AllLiteral([]) && IsUtf8([])
  {
    assert Utf8([]) == [];
  }

  /** A string within its limit is read as its characters. */
  lemma {:induction false} UnescapeChars(chars: seq<Char>, rest: seq<Byte>, limit: nat, used: nat)
    requires CharsFit(chars) && used + |CharsText(chars)| <= limit < U64
    ensures Unescape(SpellChars(chars) + ([QUOTE] + rest), limit, used) == Got(CharsText(chars), rest)
  {
    hide *;
    CharsParts(chars);
    if chars == [] {
      NoText();
      RoomFits(limit, used, 0);
      UnescapeEnd([], rest, limit, used);
      assert SpellChars(chars) + ([QUOTE] + rest) == [] + ([QUOTE] + rest);
    } else {
      var ch, tail := chars[0], SpellChars(chars[1..]) + ([QUOTE] + rest);
      UnescapeChars(chars[1..], rest, limit, used + |CharText(ch)|);
      UnescapeChar(ch, tail, limit, used);
      assert SpellChars(chars) + ([QUOTE] + rest) == SpellChar(ch) + tail;
    }
  }

  lemma {:induction false} CharsParts(chars: seq<Char>)
    requires CharsFit(chars)
    ensures chars == [] ==> SpellChars(chars) == [] && CharsText(chars) == []
    ensures chars != [] ==> CharFits(chars[0]) && CharsFit(chars[1..]) && CharsText(chars) == CharText(chars[0]) + CharsText(chars[1..])
                            && SpellChars(chars) == SpellChar(chars[0]) + SpellChars(chars[1..])
  {
    hide SpellChar, CharText, CharFits;
  }

  // ---- White space -------------------------------------------------------

  lemma {:induction false} SpaceSkipped(w: seq<Byte>, t: seq<Byte>)
    requires AllSpace(w) && NotSpace(t)
    ensures SkipSpace(w + t) == t
  {
    if w == [] {
      assert w + t == t;
    } else {
      assert (w + t)[1..] == w[1..] + t;
      SpaceSkipped(w[1..], t);
    }
  }

  lemma {:induction false} SkipTwice(s: seq<Byte>)
    ensures SkipSpace(SkipSpace(s)) == SkipSpace(s)
  {
    if s != [] && IsSpace(s[0]) { SkipTwice(s[1..]); }
  }

  lemma {:induction false} ValueSkips(s: seq<Byte>, depth: nat, budget: nat)
    ensures ParseValue(SkipSpace(s), depth, budget) == ParseValue(s, depth, budget)
  {
    SkipTwice(s);
    hide ParseElements, ParseMembers, ParseScalar, Unescape, SkipSpace;
  }

  lemma {:induction false} ElementsSkip(s: seq<Byte>, depth: nat, budget: nat, done: seq<Value>)
    ensures ParseElements(SkipSpace(s), depth, budget, done) == ParseElements(s, depth, budget, done)
  {
    SkipTwice(s);
    hide ParseValue, ParseMembers, SkipSpace;
  }

  lemma {:induction false} MembersSkip(s: seq<Byte>, depth: nat, budget: nat, done: seq<Member>)
    ensures ParseMembers(SkipSpace(s), depth, budget, done) == ParseMembers(s, depth, budget, done)
  {
    SkipTwice(s);
    hide ParseValue, ParseElements, ParseKey, SkipSpace;
  }

  /** A closing bracket or brace is no value. */
  lemma {:induction false} NoValue(b: Byte, rest: seq<Byte>, depth: nat, budget: nat)
    requires b == CLOSE_ARRAY || b == CLOSE_OBJECT
    ensures ParseValue([b] + rest, depth, budget).Fail?
  {
    var s := [b] + rest;
    NothingSkipped(s);
    assert s[0] == b;
    assert NumberLength(s).None?;
    hide ParseElements, ParseMembers, Unescape, NumberLength;
  }

  /** A bracket, white space and the closing bracket: read exactly if there is no
      white space. The grammar allows it. */
  lemma {:induction false} EmptyArray(inside: seq<Byte>, rest: seq<Byte>, depth: nat, budget: nat)
    requires AllSpace(inside) && depth < MAX_DEPTH && budget > 0
    ensures ParseValue([OPEN_ARRAY] + (inside + ([CLOSE_ARRAY] + rest)), depth, budget)
         == if inside == [] then Got(Spent(Array([]), budget - 1), rest) else Fail
  {
    hide ParseValue, ParseElements;
    var end := [CLOSE_ARRAY] + rest;
    ParseArray(inside + end, depth, budget);
    if inside == [] {
      assert inside + end == end;
    } else {
      assert (inside + end)[0] == inside[0];
      SpaceSkipped(inside, end);
      NoValue(CLOSE_ARRAY, rest, depth + 1, budget - 1);
      NoElement(inside + end, depth, budget - 1);
    }
  }

  lemma {:induction false} NoElement(s: seq<Byte>, depth: nat, budget: nat)
    requires ParseValue(SkipSpace(s), depth + 1, budget).Fail?
    ensures ParseElements(s, depth, budget, []).Fail?
  {
    hide ParseValue, SkipSpace;
  }

  lemma {:induction false} EmptyObject(inside: seq<Byte>, rest: seq<Byte>, depth: nat, budget: nat)
    requires AllSpace(inside) && depth < MAX_DEPTH && budget > 0
    ensures ParseValue([OPEN_OBJECT] + (inside + ([CLOSE_OBJECT] + rest)), depth, budget)
         == if inside == [] then Got(Spent(Object([]), budget - 1), rest) else Fail
  {
    hide ParseValue, ParseMembers;
    var end := [CLOSE_OBJECT] + rest;
    ParseObject(inside + end, depth, budget);
    if inside == [] {
      assert inside + end == end;
    } else {
      assert (inside + end)[0] == inside[0];
      SpaceSkipped(inside, end);
      NoMember(inside + end, depth, budget - 1);
    }
  }

  lemma {:induction false} NoMember(s: seq<Byte>, depth: nat, budget: nat)
    requires SkipSpace(s) == [] || SkipSpace(s)[0] != QUOTE
    ensures ParseMembers(s, depth, budget, []).Fail?
  {
    hide ParseValue, SkipSpace;
  }

  // ---- Reading a layout --------------------------------------------------

  lemma {:induction false} SpellBegins(l: Layout, rest: seq<Byte>)
    ensures Begins(Spell(l) + rest) && NotSpace(Spell(l) + rest)
  {
  }

  /** A cell is read as its layout, up to the white space after it. */
  lemma {:induction false} CellValue(c: Cell, tail: seq<Byte>, depth: nat, budget: nat)
    requires CellFits(c)
    ensures ParseValue(SpellCell(c) + tail, depth, budget) == ParseValue(Spell(c.layout) + (c.after + tail), depth, budget)
    ensures SkipSpace(SpellCell(c) + tail) == Spell(c.layout) + (c.after + tail)
  {
    CellParts(c);
    hide *;
    var t := Spell(c.layout) + (c.after + tail);
    assert SpellCell(c) + tail == c.before + t by { AppendFour(c.before, Spell(c.layout), c.after, tail); AppendThree(c.before, Spell(c.layout), c.after); }
    SpellBegins(c.layout, c.after + tail);
    SpaceSkipped(c.before, t);
    ValueSkips(c.before + t, depth, budget);
  }

  lemma {:induction false} CellParts(c: Cell)
    requires CellFits(c)
    ensures AllSpace(c.before) && Fits(c.layout) && AllSpace(c.after) && SpellCell(c) == c.before + (Spell(c.layout) + c.after)
  {
  }

  /** After a cell that is the last, and after one that is not. */
  lemma {:induction false} ElementStep(s: seq<Byte>, depth: nat, budget: nat, done: seq<Value>, after: seq<Byte>, tail: seq<Byte>)
    requires |done| < MAX_CONTAINER && AllSpace(after) && tail != [] && (tail[0] == CLOSE_ARRAY || tail[0] == COMMA)
    requires var r := ParseValue(s, depth + 1, budget); r.Got? ==> r.rest == after + tail
    ensures var r := ParseValue(s, depth + 1, budget);
            && (r.Fail? ==> ParseElements(s, depth, budget, done).Fail?)
            && (r.Got? && tail[0] == CLOSE_ARRAY ==>
                  ParseElements(s, depth, budget, done) == Got(Spent(Array(done + [r.value.value]), r.value.budget), tail[1..]))
            && (r.Got? && tail[0] == COMMA && Begins(SkipSpace(tail[1..])) ==>
                  ParseElements(s, depth, budget, done)
                  == ParseElements(tail[1..], depth, r.value.budget, done + [r.value.value]))
  {
    ValueSkips(s, depth + 1, budget);
    var r := ParseValue(s, depth + 1, budget);
    if r.Got? {
      SpaceSkipped(after, tail);
      ElementsSkip(tail[1..], depth, r.value.budget, done + [r.value.value]);
    }
    hide ParseValue, SkipSpace, ParseMembers;
  }

  /** After a member that is the last, and after one that is not. */
  lemma {:induction false} MemberStep(s: seq<Byte>, key: seq<Byte>, mid: seq<Byte>, depth: nat, budget: nat, done: seq<Member>,
                                      after: seq<Byte>, tail: seq<Byte>)
    requires |done| < MAX_CONTAINER && AllSpace(after) && tail != [] && (tail[0] == CLOSE_OBJECT || tail[0] == COMMA)
    requires ParseKey(SkipSpace(s)) == Got(key, mid) && !HasKey(done, key)
    requires var r := ParseValue(mid, depth + 1, budget); r.Got? ==> r.rest == after + tail
    ensures var r := ParseValue(mid, depth + 1, budget);
            && (r.Fail? ==> ParseMembers(s, depth, budget, done).Fail?)
            && (r.Got? && tail[0] == CLOSE_OBJECT ==>
                  ParseMembers(s, depth, budget, done)
                  == Got(Spent(Object(done + [Member(key, r.value.value)]), r.value.budget), tail[1..]))
            && (r.Got? && tail[0] == COMMA ==>
                  ParseMembers(s, depth, budget, done)
                  == ParseMembers(tail[1..], depth, r.value.budget, done + [Member(key, r.value.value)]))
  {
    var r := ParseValue(mid, depth + 1, budget);
    if r.Got? {
      SpaceSkipped(after, tail);
      MembersSkip(tail[1..], depth, r.value.budget, done + [Member(key, r.value.value)]);
    }
    hide ParseValue, SkipSpace, ParseKey, HasKey, ParseElements;
  }

  /** A key with its white space and its colon. */
  lemma {:induction false} KeyRead(e: Entry, tail: seq<Byte>)
    requires EntryFits(e) && |CharsText(e.key)| <= MAX_KEY
    ensures ParseKey(SkipSpace(SpellEntry(e) + tail)) == Got(CharsText(e.key), Spell(e.cell.layout) + (e.cell.after + tail))
  {
    EntryParts(e);
    hide *;
    var cell := SpellCell(e.cell) + tail;
    var later := e.after + ([COLON] + cell);
    assert SpellEntry(e) + tail == e.before + (Quoted(e.key) + later) by { EntryTail(e, tail); }
    QuotedBegins(e.key, later);
    SpaceSkipped(e.before, Quoted(e.key) + later);
    CellValue(e.cell, tail, 0, 0);
    ColonBegins(cell);
    SpaceSkipped(e.after, [COLON] + cell);
    assert ([COLON] + cell)[1..] == cell && ([COLON] + cell)[0] == COLON;
    UnescapeChars(e.key, later, MAX_KEY, 0);
    assert Quoted(e.key) + later == [QUOTE] + (SpellChars(e.key) + ([QUOTE] + later)) by { QuotedTail(e.key, later); }
    KeyIs(SpellChars(e.key) + ([QUOTE] + later), CharsText(e.key), later, cell);
  }

  lemma {:induction false} KeyIs(s: seq<Byte>, key: seq<Byte>, later: seq<Byte>, cell: seq<Byte>)
    requires Unescape(s, MAX_KEY, 0) == Got(key, later) && |key| <= MAX_KEY
    requires SkipSpace(later) == [COLON] + cell
    ensures ParseKey([QUOTE] + s) == Got(key, SkipSpace(cell))
  {
    hide Unescape, SkipSpace;
    assert ([QUOTE] + s)[1..] == s && ([COLON] + cell)[1..] == cell;
  }

  lemma {:induction false} ColonBegins(s: seq<Byte>)
    ensures NotSpace([COLON] + s) && MAX_KEY < U64
  {
  }

  lemma {:induction false} QuotedBegins(chars: seq<Char>, s: seq<Byte>)
    ensures NotSpace(Quoted(chars) + s)
  {
  }

  lemma {:induction false} QuotedTail(chars: seq<Char>, s: seq<Byte>)
    ensures Quoted(chars) + s == [QUOTE] + (SpellChars(chars) + ([QUOTE] + s))
  {
  }

  lemma {:induction false} EntryParts(e: Entry)
    requires EntryFits(e)
    ensures AllSpace(e.before) && CharsFit(e.key) && AllSpace(e.after) && CellFits(e.cell)
  {
  }

  lemma {:induction false} EntryTail(e: Entry, tail: seq<Byte>)
    ensures SpellEntry(e) + tail == e.before + (Quoted(e.key) + (e.after + ([COLON] + (SpellCell(e.cell) + tail))))
  {
    hide Quoted, SpellCell;
  }

  /** Within the limits, what a layout spells is read as its value exactly if it is
      tight, and refused otherwise. */
  lemma {:induction false} ReadsLayout(l: Layout, rest: seq<Byte>, depth: nat, budget: nat)
    requires Fits(l) && budget <= MAX_CONTAINER && Spend(ValueOf(l), depth, budget).Some?
    ensures ParseValue(Spell(l) + rest, depth, budget)
         == if Tight(l) then Got(Spent(ValueOf(l), Spend(ValueOf(l), depth, budget).value), rest) else Fail
    decreases l, 1
  {
    hide ParseValue, ParseElements, ParseMembers, Unescape, SpendAll, SpendMembers, SpellCells, SpellEntries, CharsFit, SpellChars, CharsText,
      ValuesOf, MembersOf, CellFits, EntryFits;
    match l
    case Text(chars) =>
      UnescapeChars(chars, rest, MAX_TEXT, 0);
      var t := SpellChars(chars) + ([QUOTE] + rest);
      assert Spell(l) + rest == [QUOTE] + t;
      ParseText(t, depth, budget);
    case List(inside, cells) =>
      if cells == [] {
        NoCells(depth + 1, budget - 1);
        assert Spell(l) + rest == [OPEN_ARRAY] + (inside + ([CLOSE_ARRAY] + rest));
        EmptyArray(inside, rest, depth, budget);
      } else {
        var t := SpellCells(cells) + ([CLOSE_ARRAY] + rest);
        assert Spell(l) + rest == [OPEN_ARRAY] + t;
        CellsBegin(cells, [CLOSE_ARRAY] + rest);
        ParseArray(t, depth, budget);
        ReadsCells(cells, [], rest, depth, budget - 1);
        assert [] + ValuesOf(cells) == ValuesOf(cells);
      }
    case Record(inside, entries) =>
      if entries == [] {
        NoCells(depth + 1, budget - 1);
        assert Spell(l) + rest == [OPEN_OBJECT] + (inside + ([CLOSE_OBJECT] + rest));
        EmptyObject(inside, rest, depth, budget);
      } else {
        var t := SpellEntries(entries) + ([CLOSE_OBJECT] + rest);
        assert Spell(l) + rest == [OPEN_OBJECT] + t;
        EntriesBegin(entries, [CLOSE_OBJECT] + rest);
        ParseObject(t, depth, budget);
        ReadsEntries(entries, [], rest, depth, budget - 1);
        assert [] + MembersOf(entries) == MembersOf(entries);
      }
  }

  lemma {:induction false} AfterFirst(b: Byte, s: seq<Byte>)
    ensures ([b] + s)[0] == b && ([b] + s)[1..] == s
  {
  }

  lemma {:induction false} NoCells(depth: nat, budget: nat)
    ensures ValuesOf([]) == [] && MembersOf([]) == []
    ensures SpendAll([], depth, budget) == Some(budget) && SpendMembers([], [], depth, budget) == Some(budget)
  {
  }

  lemma {:induction false} CellsBegin(cells: seq<Cell>, rest: seq<Byte>)
    requires cells != [] && CellFits(cells[0])
    ensures var s := SpellCells(cells) + rest; s != [] && s[0] != CLOSE_ARRAY && Begins(SkipSpace(s))
  {
    var tail := CellsSplit(cells, rest);
    CellValue(cells[0], tail, 0, 0);
    SpellBegins(cells[0].layout, cells[0].after + tail);
    StartsWell(SpellCells(cells) + rest);
  }

  lemma {:induction false} StartsWell(s: seq<Byte>)
    requires Begins(SkipSpace(s))
    ensures s != [] && s[0] != CLOSE_ARRAY && s[0] != CLOSE_OBJECT
  {
  }

  /** One cell and what follows it. */
  lemma {:induction false} CellsSplit(cells: seq<Cell>, rest: seq<Byte>) returns (tail: seq<Byte>)
    requires cells != []
    ensures SpellCells(cells) + rest == SpellCell(cells[0]) + tail
    ensures |cells| == 1 ==> tail == rest
    ensures |cells| > 1 ==> tail == [COMMA] + (SpellCells(cells[1..]) + rest)
  {
    hide SpellCell;
    if |cells| == 1 {
      tail := rest;
      assert SpellCell(cells[0]) + [] == SpellCell(cells[0]);
    } else {
      tail := [COMMA] + (SpellCells(cells[1..]) + rest);
      AppendFour(SpellCell(cells[0]), [COMMA], SpellCells(cells[1..]), rest);
      AppendThree(SpellCell(cells[0]), [COMMA], SpellCells(cells[1..]));
    }
  }

  lemma {:induction false} ReadsCells(cells: seq<Cell>, done: seq<Value>, rest: seq<Byte>, depth: nat, budget: nat)
    requires cells != [] && CellsFit(cells) && |done| + budget <= MAX_CONTAINER
    requires SpendAll(ValuesOf(cells), depth + 1, budget).Some?
    ensures ParseElements(SpellCells(cells) + ([CLOSE_ARRAY] + rest), depth, budget, done)
         == if CellsTight(cells)
            then Got(Spent(Array(done + ValuesOf(cells)), SpendAll(ValuesOf(cells), depth + 1, budget).value), rest) else Fail
    decreases cells, 0
  {
    CellsParts(cells, depth + 1, budget);
    hide *;
    var end := [CLOSE_ARRAY] + rest;
    var c, v, later := cells[0], ValueOf(cells[0].layout), cells[1..];
    var tail := CellsSplit(cells, end);
    var s := SpellCells(cells) + end;
    CellParts(c);
    ReadsLayout(c.layout, c.after + tail, depth + 1, budget);
    CellValue(c, tail, depth + 1, budget);
    SpendShrinks(v, depth + 1, budget);
    var left := Spend(v, depth + 1, budget).value;
    ElementStep(s, depth, budget, done, c.after, tail);
    TightParts(cells);
    if |cells| == 1 {
      OneValue(cells, depth + 1, left);
      AfterFirst(CLOSE_ARRAY, rest);
    } else if Tight(c.layout) {
      CellsParts(later, depth + 1, left);
      CellsBegin(later, end);
      AfterFirst(COMMA, SpellCells(later) + end);
      ReadsCells(later, done + [v], rest, depth, left);
      AppendThree(done, [v], ValuesOf(later));
    }
  }

  lemma {:induction false} OneValue(cells: seq<Cell>, depth: nat, left: nat)
    requires |cells| == 1 && CellsFit(cells)
    ensures CellFits(cells[0]) && ValuesOf(cells) == [ValueOf(cells[0].layout)] && SpendAll(ValuesOf(cells)[1..], depth, left) == Some(left)
  {
    hide ValueOf, CellFits, Fits;
    assert CellFits(cells[0]);
    assert cells[1..] == [];
    assert ValuesOf([]) == [];
    assert ValuesOf(cells)[1..] == [];
  }

  lemma {:induction false} TightParts(cells: seq<Cell>)
    requires cells != []
    ensures CellsTight(cells) <==> Tight(cells[0].layout) && CellsTight(cells[1..])
    ensures |cells| == 1 ==> CellsTight(cells[1..])
  {
    hide Tight;
    assert forall i :: 0 < i < |cells| ==> cells[i] == cells[1..][i - 1];
  }

  lemma {:induction false} CellsParts(cells: seq<Cell>, depth: nat, budget: nat)
    requires cells != [] && CellsFit(cells)
    ensures CellFits(cells[0]) && Fits(cells[0].layout) && CellsFit(cells[1..])
    ensures ValuesOf(cells) == [ValueOf(cells[0].layout)] + ValuesOf(cells[1..])
    ensures SpendAll(ValuesOf(cells), depth, budget).Some? ==>
              && Spend(ValueOf(cells[0].layout), depth, budget).Some? && budget > 0
              && SpendAll(ValuesOf(cells), depth, budget)
                 == SpendAll(ValuesOf(cells[1..]), depth, Spend(ValueOf(cells[0].layout), depth, budget).value)
  {
    assert CellFits(cells[0]);
    hide ValueOf, CellFits, Tight;
    assert ValuesOf(cells)[1..] == ValuesOf(cells[1..]);
    SpendNothing(ValueOf(cells[0].layout), depth);
  }

  lemma {:induction false} EntriesBegin(entries: seq<Entry>, rest: seq<Byte>)
    requires entries != [] && EntryFits(entries[0])
    ensures var s := SpellEntries(entries) + rest; s != [] && s[0] != CLOSE_OBJECT
  {
    var tail := EntriesSplit(entries, rest);
    var e := entries[0];
    EntryParts(e);
    EntryTail(e, tail);
    QuotedBegins(e.key, e.after + ([COLON] + (SpellCell(e.cell) + tail)));
    hide SpellEntry, SpellEntries, Quoted, SpellCell;
    if e.before != [] { assert (SpellEntries(entries) + rest)[0] == e.before[0]; }
    QuotedStarts(e.key);
  }

  lemma {:induction false} QuotedStarts(chars: seq<Char>)
    ensures Quoted(chars) != [] && Quoted(chars)[0] == QUOTE
  {
  }

  lemma {:induction false} EntriesSplit(entries: seq<Entry>, rest: seq<Byte>) returns (tail: seq<Byte>)
    requires entries != []
    ensures SpellEntries(entries) + rest == SpellEntry(entries[0]) + tail
    ensures |entries| == 1 ==> tail == rest
    ensures |entries| > 1 ==> tail == [COMMA] + (SpellEntries(entries[1..]) + rest)
  {
    hide SpellEntry;
    if |entries| == 1 {
      tail := rest;
      assert SpellEntry(entries[0]) + [] == SpellEntry(entries[0]);
    } else {
      tail := [COMMA] + (SpellEntries(entries[1..]) + rest);
      AppendFour(SpellEntry(entries[0]), [COMMA], SpellEntries(entries[1..]), rest);
      AppendThree(SpellEntry(entries[0]), [COMMA], SpellEntries(entries[1..]));
    }
  }

  lemma {:induction false} ReadsEntries(entries: seq<Entry>, done: seq<Member>, rest: seq<Byte>, depth: nat, budget: nat)
    requires entries != [] && EntriesFit(entries) && |done| + budget <= MAX_CONTAINER
    requires SpendMembers(MembersOf(entries), done, depth + 1, budget).Some?
    ensures ParseMembers(SpellEntries(entries) + ([CLOSE_OBJECT] + rest), depth, budget, done)
         == if EntriesTight(entries)
            then Got(Spent(Object(done + MembersOf(entries)), SpendMembers(MembersOf(entries), done, depth + 1, budget).value), rest) else Fail
    decreases entries, 0
  {
    EntriesParts(entries, done, depth + 1, budget);
    hide *;
    var end := [CLOSE_OBJECT] + rest;
    var e, later := entries[0], entries[1..];
    var key, v := CharsText(e.key), ValueOf(e.cell.layout);
    var tail := EntriesSplit(entries, end);
    var s := SpellEntries(entries) + end;
    EntryParts(e);
    CellParts(e.cell);
    KeyRead(e, tail);
    ReadsLayout(e.cell.layout, e.cell.after + tail, depth + 1, budget);
    SpendShrinks(v, depth + 1, budget);
    var left := Spend(v, depth + 1, budget).value;
    MemberStep(s, key, Spell(e.cell.layout) + (e.cell.after + tail), depth, budget, done, e.cell.after, tail);
    EntriesTightParts(entries);
    if |entries| == 1 {
      OneMember(entries, done + [Member(key, v)], depth + 1, left);
      AfterFirst(CLOSE_OBJECT, rest);
    } else if Tight(e.cell.layout) {
      EntriesParts(later, done + [Member(key, v)], depth + 1, left);
      AfterFirst(COMMA, SpellEntries(later) + end);
      ReadsEntries(later, done + [Member(key, v)], rest, depth, left);
      AppendThree(done, [Member(key, v)], MembersOf(later));
    }
  }

  lemma {:induction false} OneMember(entries: seq<Entry>, done: seq<Member>, depth: nat, left: nat)
    requires |entries| == 1 && EntriesFit(entries)
    ensures EntryFits(entries[0]) && CharsFit(entries[0].key) && Fits(entries[0].cell.layout)
    ensures MembersOf(entries) == [Member(CharsText(entries[0].key), ValueOf(entries[0].cell.layout))]
    ensures SpendMembers(MembersOf(entries)[1..], done, depth, left) == Some(left)
  {
    assert EntryFits(entries[0]) && CellFits(entries[0].cell);
    hide ValueOf, CellFits, EntryFits, CharsText;
    assert entries[1..] == [];
    assert MembersOf([]) == [];
    assert MembersOf(entries)[1..] == [];
  }

  lemma {:induction false} EntriesTightParts(entries: seq<Entry>)
    requires entries != []
    ensures EntriesTight(entries) <==> Tight(entries[0].cell.layout) && EntriesTight(entries[1..])
    ensures |entries| == 1 ==> EntriesTight(entries[1..])
  {
    hide Tight;
    assert forall i :: 0 < i < |entries| ==> entries[i] == entries[1..][i - 1];
  }

  lemma {:induction false} EntriesParts(entries: seq<Entry>, done: seq<Member>, depth: nat, budget: nat)
    requires entries != [] && EntriesFit(entries)
    ensures EntryFits(entries[0]) && CharsFit(entries[0].key) && CellFits(entries[0].cell) && Fits(entries[0].cell.layout)
    ensures EntriesFit(entries[1..])
    ensures var m := Member(CharsText(entries[0].key), ValueOf(entries[0].cell.layout));
            && MembersOf(entries) == [m] + MembersOf(entries[1..])
            && (SpendMembers(MembersOf(entries), done, depth, budget).Some? ==>
                  && |m.key| <= MAX_KEY && !HasKey(done, m.key) && Spend(m.value, depth, budget).Some? && budget > 0
                  && SpendMembers(MembersOf(entries), done, depth, budget)
                     == SpendMembers(MembersOf(entries[1..]), done + [m], depth, Spend(m.value, depth, budget).value))
  {
    assert EntryFits(entries[0]) && CellFits(entries[0].cell);
    hide ValueOf, CellFits, EntryFits, Tight, CharsText, HasKey;
    assert MembersOf(entries)[1..] == MembersOf(entries[1..]);
    SpendNothing(ValueOf(entries[0].cell.layout), depth);
  }

  /** Within the limits, a document the grammar derives is read exactly if no empty
      container holds white space. */
  lemma {:induction false} DocumentOfLayout(before: seq<Byte>, l: Layout, after: seq<Byte>)
    requires AllSpace(before) && Fits(l) && AllSpace(after)
    requires |before + (Spell(l) + after)| <= MAX_INPUT && Spend(ValueOf(l), 0, MAX_ELEMENTS).Some?
    ensures Document(before + (Spell(l) + after)) == if Tight(l) then Some(ValueOf(l)) else None
  {
    hide *;
    var s := before + (Spell(l) + after);
    SpellBegins(l, after);
    SpaceSkipped(before, Spell(l) + after);
    ValueSkips(s, 0, MAX_ELEMENTS);
    DocumentIs(s);
    ReadsLayout(l, after, 0, MAX_ELEMENTS);
    OnlySpace(after);
  }

  lemma {:induction false} OnlySpace(s: seq<Byte>)
    requires AllSpace(s)
    ensures SkipSpace(s) == []
  {
    if s != [] { OnlySpace(s[1..]); }
  }

  lemma {:induction false} DocumentIs(s: seq<Byte>)
    ensures MAX_ELEMENTS <= MAX_CONTAINER
    ensures |s| <= MAX_INPUT && s != [] ==>
              (var r := ParseValue(s, 0, MAX_ELEMENTS);
               Document(s) == if r.Fail? || SkipSpace(r.rest) != [] then None else Some(r.value.value))
    ensures Document(s).Some? ==> |s| <= MAX_INPUT && s != []
  {
    hide ParseValue, SkipSpace;
  }

  // ---- What is read has a layout -----------------------------------------

  /** Only strings, arrays and objects: all an operation frame is made of. */
  ghost predicate Plain(v: Value) {
    match v
    case String(_) => true
    case Array(elements) => forall i :: 0 <= i < |elements| ==> Plain(elements[i])
    case Object(members) => forall i :: 0 <= i < |members| ==> Plain(members[i].value)
    case _ => false
  }

  lemma {:induction false} SpaceBefore(s: seq<Byte>) returns (w: seq<Byte>)
    ensures AllSpace(w) && s == w + SkipSpace(s)
  {
    if s != [] && IsSpace(s[0]) {
      var rest := SpaceBefore(s[1..]);
      w := [s[0]] + rest;
      assert s == [s[0]] + s[1..];
      AppendThree([s[0]], rest, SkipSpace(s[1..]));
    } else {
      w := [];
    }
  }

  function Raws(cs: seq<Scalar>): seq<Char> {
    if cs == [] then [] else [Raw(cs[0])] + Raws(cs[1..])
  }

  lemma {:induction false} RawsSpell(cs: seq<Scalar>)
    requires AllLiteral(Utf8(cs))
    ensures CharsFit(Raws(cs)) && SpellChars(Raws(cs)) == Utf8(cs) && CharsText(Raws(cs)) == Utf8(cs)
  {
    if cs != [] {
      var a, t := Encoded(cs[0]), Utf8(cs[1..]);
      LiteralParts(a, t);
      RawsSpell(cs[1..]);
      RawFits(cs[0]);
      hide Encoded, CharFits, Utf8;
      CharsCons(Raw(cs[0]), Raws(cs[1..]));
      RawParts(cs[0]);
      Utf8Cons(cs);
    }
  }

  lemma {:induction false} Utf8Cons(cs: seq<Scalar>)
    requires cs != []
    ensures Utf8(cs) == Encoded(cs[0]) + Utf8(cs[1..])
  {
  }

  lemma {:induction false} LiteralParts(a: seq<Byte>, t: seq<Byte>)
    requires AllLiteral(a + t)
    ensures AllLiteral(a) && AllLiteral(t)
  {
    hide Stops;
    assert forall i :: 0 <= i < |a| ==> a[i] == (a + t)[i];
    assert forall i :: 0 <= i < |t| ==> t[i] == (a + t)[|a| + i];
  }

  lemma {:induction false} RawFits(c: Scalar)
    requires AllLiteral(Encoded(c))
    ensures CharFits(Raw(c))
  {
    if c < 0x80 { assert Encoded(c)[0] == c; }
  }

  lemma {:induction false} CharsCons(ch: Char, chars: seq<Char>)
    ensures SpellChars([ch] + chars) == SpellChar(ch) + SpellChars(chars)
    ensures CharFits(ch) && CharsFit(chars) ==> CharsFit([ch] + chars) && CharsText([ch] + chars) == CharText(ch) + CharsText(chars)
  {
    hide SpellChar, CharFits, CharText;
    assert ([ch] + chars)[1..] == chars;
  }

  lemma {:induction false} CharsConcat(a: seq<Char>, b: seq<Char>)
    requires CharsFit(a) && CharsFit(b)
    ensures CharsFit(a + b) && SpellChars(a + b) == SpellChars(a) + SpellChars(b) && CharsText(a + b) == CharsText(a) + CharsText(b)
  {
    hide SpellChar, CharFits, CharText;
    if a == [] {
      assert a + b == b;
    } else {
      CharsParts(a);
      CharsConcat(a[1..], b);
      assert a + b == [a[0]] + (a[1..] + b);
      CharsCons(a[0], a[1..] + b);
      AppendThree(SpellChar(a[0]), SpellChars(a[1..]), SpellChars(b));
      AppendThree(CharText(a[0]), CharsText(a[1..]), CharsText(b));
    }
  }

  /** An escape that is read is one of the grammar's. */
  lemma {:induction false} EscapeHasChar(s: seq<Byte>, limit: nat, used: nat) returns (ch: Char)
    requires Escape(s, limit, used).Got?
    ensures var r := Escape(s, limit, used);
            CharFits(ch) && CharText(ch) == r.value && SpellChar(ch) + r.rest == [BACKSLASH] + s
  {
    hide Encoded, Room, SimpleEscape, HexValue;
    if s[0] != LOWER_U {
      ch := Short(s[0]);
    } else {
      var unit := Hex4(s[1..]);
      HexOf(s, 1);
      if 0xD800 <= unit.value <= 0xDFFF {
        HexOf(s, 7);
        ch := Pair(s[1..5], s[7..11]);
        PairSpelled(s);
      } else {
        ch := Unit(s[1..5]);
        assert SpellChar(ch) + s[5..] == [BACKSLASH] + s;
      }
    }
  }

  lemma {:induction false} HexOf(s: seq<Byte>, i: nat)
    requires i <= |s|
    ensures |s| >= i + 4 ==> Hex4(s[i..i + 4]) == Hex4(s[i..])
  {
    hide HexValue;
  }

  lemma {:induction false} PairSpelled(s: seq<Byte>)
    requires |s| >= 11 && s[0] == LOWER_U && s[5] == BACKSLASH && s[6] == LOWER_U
    ensures SpellChar(Pair(s[1..5], s[7..11])) + s[11..] == [BACKSLASH] + s
  {
  }

  /** The characters are what the reader found at the front of `s`, up to the
      closing quote. */
  ghost predicate SpelledBy(s: seq<Byte>, r: Parsed<seq<Byte>>, chars: seq<Char>) {
    r.Got? && CharsFit(chars) && CharsText(chars) == r.value && s == SpellChars(chars) + ([QUOTE] + r.rest)
  }

  /** A text that is read is spelled by characters. */
  lemma {:induction false} UnescapeHasChars(s: seq<Byte>, limit: nat, used: nat) returns (chars: seq<Char>)
    requires Unescape(s, limit, used).Got?
    ensures SpelledBy(s, Unescape(s, limit, used), chars)
    decreases |s|
  {
    hide *;
    var cs, t := SplitRun(s, limit, used);
    RunEndParts(Utf8(cs), t, limit, used);
    if t[0] == QUOTE {
      chars := Raws(cs);
      SpelledToQuote(s, cs, t, limit, used);
    } else {
      var at := used + |Utf8(cs)|;
      var piece := Escape(t[1..], limit, at);
      EscapeIsShorter(t, limit, at);
      var ch := EscapeHasChar(t[1..], limit, at);
      var more := UnescapeHasChars(piece.rest, limit, at + |piece.value|);
      chars := Raws(cs) + ([ch] + more);
      var r := Unescape(piece.rest, limit, at + |piece.value|);
      SpelledGot(piece.rest, r, more);
      SpelledPastEscape(s, cs, t, ch, piece.rest, r, more);
    }
  }

  lemma {:induction false} SpelledGot(s: seq<Byte>, r: Parsed<seq<Byte>>, chars: seq<Char>)
    requires SpelledBy(s, r, chars)
    ensures r.Got? && CharsFit(chars) && CharsText(chars) == r.value && s == SpellChars(chars) + ([QUOTE] + r.rest)
  {
  }

  lemma {:induction false} SpelledToQuote(s: seq<Byte>, cs: seq<Scalar>, t: seq<Byte>, limit: nat, used: nat)
    requires s == Utf8(cs) + t && AllLiteral(Utf8(cs)) && t != [] && t[0] == QUOTE
    requires Unescape(s, limit, used) == Got(Utf8(cs), t[1..])
    ensures SpelledBy(s, Unescape(s, limit, used), Raws(cs))
  {
    RawsSpell(cs);
    FirstIs(t, QUOTE);
    hide Unescape, CharsFit, CharsText, SpellChars, Utf8, Raws;
  }

  lemma {:induction false} SpelledPastEscape(s: seq<Byte>, cs: seq<Scalar>, t: seq<Byte>, ch: Char, later: seq<Byte>,
                                             r: Parsed<seq<Byte>>, more: seq<Char>)
    requires s == Utf8(cs) + t && AllLiteral(Utf8(cs)) && t != [] && Stops(t[0]) && t[0] >= 0x20 && t[0] != QUOTE
    requires CharFits(ch) && SpellChar(ch) + later == [BACKSLASH] + t[1..] && SpelledBy(later, r, more)
    ensures SpelledBy(s, Got(Utf8(cs) + CharText(ch) + r.value, r.rest), Raws(cs) + ([ch] + more))
  {
    RawsSpell(cs);
    IsBackslash(t);
    hide CharsFit, CharsText, CharFits, CharText, SpellChars, SpellChar, Utf8, Raws;
    JoinText(Raws(cs), ch, more);
    EscapeJoined(s, Utf8(cs), t, Raws(cs), ch, more, later, r.rest);
  }

  lemma {:induction false} EscapeJoined(s: seq<Byte>, run: seq<Byte>, t: seq<Byte>, raws: seq<Char>, ch: Char, more: seq<Char>,
                                        later: seq<Byte>, rest: seq<Byte>)
    requires CharsFit(raws) && CharFits(ch) && CharsFit(more)
    requires s == run + t && run == SpellChars(raws) && t == SpellChar(ch) + later && later == SpellChars(more) + ([QUOTE] + rest)
    ensures s == SpellChars(raws + ([ch] + more)) + ([QUOTE] + rest)
  {
    hide *;
    JoinChars(raws, ch, more, later, rest);
  }

  lemma {:induction false} FirstIs(t: seq<Byte>, b: Byte)
    requires t != [] && t[0] == b
    ensures t == [b] + t[1..]
  {
  }

  lemma {:induction false} SplitRun(s: seq<Byte>, limit: nat, used: nat) returns (cs: seq<Scalar>, t: seq<Byte>)
    requires Unescape(s, limit, used).Got?
    ensures s == Utf8(cs) + t && AllLiteral(Utf8(cs)) && (t != [] ==> Stops(t[0])) && |t| <= |s|
    ensures Unescape(s, limit, used) == AtRunEnd(Utf8(cs), t, limit, used)
  {
    t := s[RunLength(s)..];
    UnescapeIs(s, limit, used);
    cs := RunHasChars(s, limit, used);
    RunThenStop(s);
    hide *;
  }

  lemma {:induction false} RunThenStop(s: seq<Byte>)
    ensures var n := RunLength(s);
            n <= |s| && s == s[..n] + s[n..] && (s[n..] != [] ==> Stops(s[n..][0]))
  {
    RunLiteral(s);
    hide RunLength, Stops;
  }

  lemma {:induction false} IsBackslash(t: seq<Byte>)
    requires t != [] && Stops(t[0]) && t[0] >= 0x20 && t[0] != QUOTE
    ensures t == [BACKSLASH] + t[1..]
  {
  }

  lemma {:induction false} JoinChars(raws: seq<Char>, ch: Char, more: seq<Char>, t: seq<Byte>, rest: seq<Byte>)
    requires t == SpellChars(more) + ([QUOTE] + rest)
    requires CharsFit(raws) && CharFits(ch) && CharsFit(more)
    ensures SpellChars(raws + ([ch] + more)) + ([QUOTE] + rest) == SpellChars(raws) + (SpellChar(ch) + t)
  {
    hide *;
    CharsCons(ch, more);
    CharsConcat(raws, [ch] + more);
    AppendThree(SpellChar(ch), SpellChars(more), [QUOTE] + rest);
    AppendThree(SpellChars(raws), SpellChar(ch) + SpellChars(more), [QUOTE] + rest);
  }

  lemma {:induction false} JoinText(raws: seq<Char>, ch: Char, more: seq<Char>)
    requires CharsFit(raws) && CharFits(ch) && CharsFit(more)
    ensures CharsFit(raws + ([ch] + more))
    ensures CharsText(raws + ([ch] + more)) == CharsText(raws) + CharText(ch) + CharsText(more)
  {
    hide *;
    CharsCons(ch, more);
    CharsConcat(raws, [ch] + more);
    AppendThree(CharsText(raws), CharText(ch), CharsText(more));
  }

  lemma {:induction false} RunHasChars(s: seq<Byte>, limit: nat, used: nat) returns (cs: seq<Scalar>)
    requires Unescape(s, limit, used).Got?
    ensures Utf8(cs) == s[..RunLength(s)] && AllLiteral(s[..RunLength(s)])
  {
    hide RunLength, Room, Escape;
    RunLiteral(s);
    cs :| Utf8(cs) == s[..RunLength(s)];
  }

  lemma {:induction false} RunLiteral(s: seq<Byte>)
    ensures AllLiteral(s[..RunLength(s)])
    ensures RunLength(s) < |s| ==> Stops(s[RunLength(s)])
  {
    if s != [] && !Stops(s[0]) {
      RunLiteral(s[1..]);
      var n := RunLength(s);
      assert s[..n] == [s[0]] + s[1..][..n - 1];
    }
  }

  lemma {:induction false} RunEndParts(run: seq<Byte>, t: seq<Byte>, limit: nat, used: nat)
    requires AtRunEnd(run, t, limit, used).Got?
    ensures t != [] && t[0] >= 0x20 && (t[0] == QUOTE ==> AtRunEnd(run, t, limit, used) == Got(run, t[1..]))
    ensures t[0] != QUOTE ==>
              (var piece := Escape(t[1..], limit, used + |run|);
               piece.Got? &&
               var more := Unescape(piece.rest, limit, used + |run| + |piece.value|);
               more.Got? && AtRunEnd(run, t, limit, used) == Got(run + piece.value + more.value, more.rest))
  {
    hide IsUtf8, Room, Escape, Unescape;
  }

  lemma {:induction false} EscapeIsShorter(t: seq<Byte>, limit: nat, used: nat)
    requires t != []
    ensures Escape(t[1..], limit, used).Got? ==> |Escape(t[1..], limit, used).rest| < |t|
  {
    hide Escape;
  }

  /** The layout spells the value the reader found at the front of `s`, after the
      white space `before`. */
  ghost predicate LaidOut(s: seq<Byte>, r: Parsed<Spent>, before: seq<Byte>, l: Layout) {
    && r.Got? && AllSpace(before) && Fits(l) && Tight(l) && ValueOf(l) == r.value.value
    && s == before + (Spell(l) + r.rest)
  }

  /** The cells spell the elements found after `done`. */
  ghost predicate CellsLaidOut(s: seq<Byte>, r: Parsed<Spent>, done: seq<Value>, cells: seq<Cell>) {
    && r.Got? && cells != [] && CellsFit(cells) && CellsTight(cells) && r.value.value == Array(done + ValuesOf(cells))
    && s == SpellCells(cells) + ([CLOSE_ARRAY] + r.rest)
  }

  ghost predicate EntriesLaidOut(s: seq<Byte>, r: Parsed<Spent>, done: seq<Member>, entries: seq<Entry>) {
    && r.Got? && entries != [] && EntriesFit(entries) && EntriesTight(entries) && r.value.value == Object(done + MembersOf(entries))
    && s == SpellEntries(entries) + ([CLOSE_OBJECT] + r.rest)
  }

  /** The kinds of values, by their first byte. */
  lemma {:induction false} ValueKinds(s: seq<Byte>, depth: nat, budget: nat)
    requires ParseValue(s, depth, budget).Got?
    ensures var t, r := SkipSpace(s), ParseValue(s, depth, budget);
            && budget > 0 && t != [] && |t| <= |s|
            && (t[0] == QUOTE ==> (var x := Unescape(t[1..], MAX_TEXT, 0); x.Got? && r == Got(Spent(String(x.value), budget - 1), x.rest)))
            && (t[0] == OPEN_ARRAY && 1 < |t| && t[1] == CLOSE_ARRAY ==> r == Got(Spent(Array([]), budget - 1), t[2..]))
            && (t[0] == OPEN_ARRAY && !(1 < |t| && t[1] == CLOSE_ARRAY) ==> r == ParseElements(t[1..], depth, budget - 1, []))
            && (t[0] == OPEN_OBJECT && 1 < |t| && t[1] == CLOSE_OBJECT ==> r == Got(Spent(Object([]), budget - 1), t[2..]))
            && (t[0] == OPEN_OBJECT && !(1 < |t| && t[1] == CLOSE_OBJECT) ==> r == ParseMembers(t[1..], depth, budget - 1, []))
            && (t[0] != QUOTE && t[0] != OPEN_ARRAY && t[0] != OPEN_OBJECT ==> !Plain(r.value.value))
  {
    hide ParseElements, ParseMembers, Unescape, NumberLength;
  }

  /** Whatever strings, arrays and objects are read were spelled by a tight layout. */
  lemma {:induction false} ReadHasLayout(s: seq<Byte>, depth: nat, budget: nat) returns (before: seq<Byte>, l: Layout)
    requires ParseValue(s, depth, budget).Got? && Plain(ParseValue(s, depth, budget).value.value)
    ensures LaidOut(s, ParseValue(s, depth, budget), before, l)
    decreases |s|, 0
  {
    hide *;
    before := SpaceBefore(s);
    var t, r := SkipSpace(s), ParseValue(s, depth, budget);
    ValueKinds(s, depth, budget);
    if t[0] == QUOTE {
      var x := Unescape(t[1..], MAX_TEXT, 0);
      var chars := UnescapeHasChars(t[1..], MAX_TEXT, 0);
      l := Text(chars);
      TextLaidOut(s, before, t, x, chars, r);
    } else if t[0] == OPEN_ARRAY {
      if 1 < |t| && t[1] == CLOSE_ARRAY {
        l := List([], []);
        EmptyLaidOut(s, before, t, r, l);
      } else {
        var cells := ElementsHaveCells(t[1..], depth, budget - 1, []);
        l := List([], cells);
        ListLaidOut(s, before, t, r, cells);
      }
    } else {
      assert t[0] == OPEN_OBJECT;
      if 1 < |t| && t[1] == CLOSE_OBJECT {
        l := Record([], []);
        EmptyLaidOut(s, before, t, r, l);
      } else {
        var entries := MembersHaveEntries(t[1..], depth, budget - 1, []);
        l := Record([], entries);
        RecordLaidOut(s, before, t, r, entries);
      }
    }
  }

  lemma {:induction false} TextLaidOut(s: seq<Byte>, before: seq<Byte>, t: seq<Byte>, x: Parsed<seq<Byte>>, chars: seq<Char>, r: Parsed<Spent>)
    requires s == before + t && AllSpace(before) && t != [] && t[0] == QUOTE && SpelledBy(t[1..], x, chars)
    requires r.Got? && r.value.value == String(x.value) && r.rest == x.rest
    ensures LaidOut(s, r, before, Text(chars))
  {
    hide CharsFit, CharsText, SpellChars, AllSpace;
    FirstIs(t, QUOTE);
    AppendFour([QUOTE], SpellChars(chars), [QUOTE], r.rest);
    AppendThree([QUOTE], SpellChars(chars), [QUOTE]);
  }

  lemma {:induction false} NothingIsSpace()
    ensures AllSpace([])
  {
  }

  lemma {:induction false} EmptyLaidOut(s: seq<Byte>, before: seq<Byte>, t: seq<Byte>, r: Parsed<Spent>, l: Layout)
    requires s == before + t && AllSpace(before) && |t| > 1 && r.Got? && r.rest == t[2..]
    requires || (l == List([], []) && t[0] == OPEN_ARRAY && t[1] == CLOSE_ARRAY && r.value.value == Array([]))
             || (l == Record([], []) && t[0] == OPEN_OBJECT && t[1] == CLOSE_OBJECT && r.value.value == Object([]))
    ensures LaidOut(s, r, before, l)
  {
    hide AllSpace;
    NothingIsSpace();
    assert t == [t[0], t[1]] + t[2..];
    assert ValuesOf([]) == [] && MembersOf([]) == [];
  }

  lemma {:induction false} ListLaidOut(s: seq<Byte>, before: seq<Byte>, t: seq<Byte>, r: Parsed<Spent>, cells: seq<Cell>)
    requires s == before + t && AllSpace(before) && t != [] && t[0] == OPEN_ARRAY && CellsLaidOut(t[1..], r, [], cells)
    ensures LaidOut(s, r, before, List([], cells))
  {
    hide CellsFit, CellsTight, ValuesOf, SpellCells;
    NothingIsSpace();
    FirstIs(t, OPEN_ARRAY);
    AppendFour([OPEN_ARRAY], SpellCells(cells), [CLOSE_ARRAY], r.rest);
    AppendThree([OPEN_ARRAY], SpellCells(cells), [CLOSE_ARRAY]);
    assert [] + ValuesOf(cells) == ValuesOf(cells);
  }

  lemma {:induction false} RecordLaidOut(s: seq<Byte>, before: seq<Byte>, t: seq<Byte>, r: Parsed<Spent>, entries: seq<Entry>)
    requires s == before + t && AllSpace(before) && t != [] && t[0] == OPEN_OBJECT && EntriesLaidOut(t[1..], r, [], entries)
    ensures LaidOut(s, r, before, Record([], entries))
  {
    hide EntriesFit, EntriesTight, MembersOf, SpellEntries;
    NothingIsSpace();
    FirstIs(t, OPEN_OBJECT);
    AppendFour([OPEN_OBJECT], SpellEntries(entries), [CLOSE_OBJECT], r.rest);
    AppendThree([OPEN_OBJECT], SpellEntries(entries), [CLOSE_OBJECT]);
    assert [] + MembersOf(entries) == MembersOf(entries);
  }

  /** What an array that is read goes on with. */
  lemma {:induction false} ElementsGot(s: seq<Byte>, depth: nat, budget: nat, done: seq<Value>)
    requires ParseElements(s, depth, budget, done).Got?
    ensures var r, first := ParseElements(s, depth, budget, done), ParseValue(s, depth + 1, budget);
            && first.Got? && |first.rest| < |s|
            && (var t, v := SkipSpace(first.rest), first.value.value;
                && t != [] && |t| < |s| && (t[0] == CLOSE_ARRAY || t[0] == COMMA)
                && (t[0] == CLOSE_ARRAY ==> r == Got(Spent(Array(done + [v]), first.value.budget), t[1..]))
                && (t[0] == COMMA ==> r == ParseElements(t[1..], depth, first.value.budget, done + [v])))
  {
    ValueSkips(s, depth + 1, budget);
    hide ParseValue, ParseMembers;
    var first := ParseValue(s, depth + 1, budget);
    if first.Got? {
      var t := SkipSpace(first.rest);
      if t != [] { ElementsSkip(t[1..], depth, first.value.budget, done + [first.value.value]); }
    }
  }

  lemma {:induction false} ElementsHaveCells(s: seq<Byte>, depth: nat, budget: nat, done: seq<Value>) returns (cells: seq<Cell>)
    requires ParseElements(s, depth, budget, done).Got? && Plain(ParseElements(s, depth, budget, done).value.value)
    ensures CellsLaidOut(s, ParseElements(s, depth, budget, done), done, cells)
    decreases |s|, 1
  {
    hide *;
    ElementsGot(s, depth, budget, done);
    var r, first := ParseElements(s, depth, budget, done), ParseValue(s, depth + 1, budget);
    var t, v := SkipSpace(first.rest), first.value.value;
    var after := SpaceBefore(first.rest);
    if t[0] == CLOSE_ARRAY {
      LastIsPlain(r.value.value, done, v);
      var before, l := ReadHasLayout(s, depth + 1, budget);
      cells := [Cell(before, l, after)];
      LastCell(s, first, done, before, l, after, t, r);
    } else {
      var more := ElementsHaveCells(t[1..], depth, first.value.budget, done + [v]);
      NextIsPlain(r, done, v, t[1..], more);
      var before, l := ReadHasLayout(s, depth + 1, budget);
      cells := [Cell(before, l, after)] + more;
      NextCell(s, first, done, before, l, after, t, r, more);
    }
  }

  lemma {:induction false} LastIsPlain(w: Value, done: seq<Value>, v: Value)
    requires Plain(w) && w == Array(done + [v])
    ensures Plain(v)
  {
    assert w.elements[|done|] == v;
  }

  lemma {:induction false} NextIsPlain(r: Parsed<Spent>, done: seq<Value>, v: Value, s: seq<Byte>, more: seq<Cell>)
    requires r.Got? && Plain(r.value.value) && CellsLaidOut(s, r, done + [v], more)
    ensures Plain(v)
  {
    assert r.value.value.elements[|done|] == v;
  }

  lemma {:induction false} LastCell(s: seq<Byte>, first: Parsed<Spent>, done: seq<Value>, before: seq<Byte>, l: Layout, after: seq<Byte>,
                                    t: seq<Byte>, r: Parsed<Spent>)
    requires LaidOut(s, first, before, l) && AllSpace(after) && first.rest == after + t && t != [] && t[0] == CLOSE_ARRAY
    requires r.Got? && r.value.value == Array(done + [first.value.value]) && r.rest == t[1..]
    ensures CellsLaidOut(s, r, done, [Cell(before, l, after)])
  {
    var c := Cell(before, l, after);
    hide Tight, Fits, ValueOf, Spell, AllSpace;
    CellIsLaidOut(s, first, before, l, after, t);
    FirstIs(t, CLOSE_ARRAY);
    OneCell(c);
  }

  lemma {:induction false} OneCell(c: Cell)
    requires CellFits(c) && Tight(c.layout)
    ensures CellsFit([c]) && CellsTight([c]) && ValuesOf([c]) == [ValueOf(c.layout)] && SpellCells([c]) == SpellCell(c)
  {
    hide Tight, Fits, ValueOf, SpellCell;
    assert [c][1..] == [] && ValuesOf([]) == [];
    assert SpellCell(c) + [] == SpellCell(c);
  }

  lemma {:induction false} CellIsLaidOut(s: seq<Byte>, first: Parsed<Spent>, before: seq<Byte>, l: Layout, after: seq<Byte>, t: seq<Byte>)
    requires LaidOut(s, first, before, l) && AllSpace(after) && first.rest == after + t
    ensures CellFits(Cell(before, l, after)) && Tight(l) && ValueOf(l) == first.value.value && s == SpellCell(Cell(before, l, after)) + t
  {
    hide Tight, Fits, ValueOf, Spell, AllSpace;
    AppendFour(before, Spell(l), after, t);
    AppendThree(before, Spell(l), after);
  }

  lemma {:induction false} NextCell(s: seq<Byte>, first: Parsed<Spent>, done: seq<Value>, before: seq<Byte>, l: Layout, after: seq<Byte>,
                                    t: seq<Byte>, r: Parsed<Spent>, more: seq<Cell>)
    requires LaidOut(s, first, before, l) && AllSpace(after) && first.rest == after + t && t != [] && t[0] == COMMA
    requires CellsLaidOut(t[1..], r, done + [first.value.value], more)
    ensures CellsLaidOut(s, r, done, [Cell(before, l, after)] + more)
  {
    var c := Cell(before, l, after);
    hide Tight, Fits, ValueOf, Spell, AllSpace, ValuesOf, SpellCells, SpellCell;
    CellIsLaidOut(s, first, before, l, after, t);
    FirstIs(t, COMMA);
    MoreCells(c, more, r.rest);
    AppendThree(done, [ValueOf(l)], ValuesOf(more));
  }

  lemma {:induction false} MoreCells(c: Cell, more: seq<Cell>, rest: seq<Byte>)
    requires CellFits(c) && Tight(c.layout) && CellsFit(more) && CellsTight(more) && more != []
    ensures CellsFit([c] + more) && CellsTight([c] + more) && ValuesOf([c] + more) == [ValueOf(c.layout)] + ValuesOf(more)
    ensures SpellCells([c] + more) + ([CLOSE_ARRAY] + rest) == SpellCell(c) + ([COMMA] + (SpellCells(more) + ([CLOSE_ARRAY] + rest)))
  {
    hide Tight, CellFits, ValueOf, SpellCell;
    assert ([c] + more)[1..] == more;
    AppendFour(SpellCell(c), [COMMA], SpellCells(more), [CLOSE_ARRAY] + rest);
    AppendThree(SpellCell(c), [COMMA], SpellCells(more));
  }

  /** What a key that is read looks like. */
  lemma {:induction false} KeyGot(u: seq<Byte>)
    requires ParseKey(u).Got?
    ensures u != [] && u[0] == QUOTE
    ensures var x := Unescape(u[1..], MAX_KEY, 0);
            && x.Got? && ParseKey(u).value == x.value
            && (var c := SkipSpace(x.rest); c != [] && |c| < |u| && c[0] == COLON && ParseKey(u).rest == SkipSpace(c[1..]))
  {
    hide Unescape;
  }

  /** What an object that is read goes on with. */
  lemma {:induction false} MembersGot(s: seq<Byte>, depth: nat, budget: nat, done: seq<Member>)
    requires ParseMembers(s, depth, budget, done).Got?
    ensures var r, key := ParseMembers(s, depth, budget, done), ParseKey(SkipSpace(s));
            && key.Got? && |SkipSpace(s)| <= |s|
            && (var first := ParseValue(key.rest, depth + 1, budget);
                && first.Got? && |first.rest| < |s|
                && (var t, m := SkipSpace(first.rest), Member(key.value, first.value.value);
                    && t != [] && |t| < |s| && (t[0] == CLOSE_OBJECT || t[0] == COMMA)
                    && (t[0] == CLOSE_OBJECT ==> r == Got(Spent(Object(done + [m]), first.value.budget), t[1..]))
                    && (t[0] == COMMA ==> r == ParseMembers(t[1..], depth, first.value.budget, done + [m]))))
  {
    hide ParseValue, ParseElements, ParseKey, HasKey;
    var key := ParseKey(SkipSpace(s));
    if key.Got? {
      var first := ParseValue(key.rest, depth + 1, budget);
      if first.Got? {
        var t := SkipSpace(first.rest);
        if t != [] { MembersSkip(t[1..], depth, first.value.budget, done + [Member(key.value, first.value.value)]); }
      }
    }
  }

  lemma {:induction false} MembersHaveEntries(s: seq<Byte>, depth: nat, budget: nat, done: seq<Member>) returns (entries: seq<Entry>)
    requires ParseMembers(s, depth, budget, done).Got? && Plain(ParseMembers(s, depth, budget, done).value.value)
    ensures EntriesLaidOut(s, ParseMembers(s, depth, budget, done), done, entries)
    decreases |s|, 1
  {
    hide *;
    MembersGot(s, depth, budget, done);
    var r, u := ParseMembers(s, depth, budget, done), SkipSpace(s);
    var key := ParseKey(u);
    KeyGot(u);
    var first := ParseValue(key.rest, depth + 1, budget);
    var t, m := SkipSpace(first.rest), Member(key.value, first.value.value);
    var x := Unescape(u[1..], MAX_KEY, 0);
    var c := SkipSpace(x.rest);
    ValueSkips(c[1..], depth + 1, budget);
    var w := SpaceBefore(s);
    var chars := UnescapeHasChars(u[1..], MAX_KEY, 0);
    var afterKey := SpaceBefore(x.rest);
    var after := SpaceBefore(first.rest);
    if t[0] == CLOSE_OBJECT {
      LastMemberIsPlain(r.value.value, done, m);
      var before, l := ReadHasLayout(c[1..], depth + 1, budget);
      var e := Entry(w, chars, afterKey, Cell(before, l, after));
      EntryIsLaidOut(s, u, x, c, first, e, t);
      entries := [e];
      LastEntry(s, e, m, done, t, r);
    } else {
      var more := MembersHaveEntries(t[1..], depth, first.value.budget, done + [m]);
      NextMemberIsPlain(r, done, m, t[1..], more);
      var before, l := ReadHasLayout(c[1..], depth + 1, budget);
      var e := Entry(w, chars, afterKey, Cell(before, l, after));
      EntryIsLaidOut(s, u, x, c, first, e, t);
      entries := [e] + more;
      NextEntry(s, e, m, done, t, r, more);
    }
  }

  lemma {:induction false} LastMemberIsPlain(w: Value, done: seq<Member>, m: Member)
    requires Plain(w) && w == Object(done + [m])
    ensures Plain(m.value)
  {
    assert w.members[|done|] == m;
  }

  lemma {:induction false} NextMemberIsPlain(r: Parsed<Spent>, done: seq<Member>, m: Member, s: seq<Byte>, more: seq<Entry>)
    requires r.Got? && Plain(r.value.value) && EntriesLaidOut(s, r, done + [m], more)
    ensures Plain(m.value)
  {
    assert r.value.value.members[|done|] == m;
  }

  /** The entry stands for the member, at the front of `s`. */
  ghost predicate EntryAt(s: seq<Byte>, e: Entry, m: Member, t: seq<Byte>) {
    EntryFits(e) && CharsFit(e.key) && Fits(e.cell.layout) && Tight(e.cell.layout)
    && m == Member(CharsText(e.key), ValueOf(e.cell.layout)) && s == SpellEntry(e) + t
  }

  lemma {:induction false} EntryIsLaidOut(s: seq<Byte>, u: seq<Byte>, x: Parsed<seq<Byte>>, c: seq<Byte>, first: Parsed<Spent>, e: Entry, t: seq<Byte>)
    requires s == e.before + u && AllSpace(e.before) && u != [] && u[0] == QUOTE && SpelledBy(u[1..], x, e.key)
    requires x.rest == e.after + c && AllSpace(e.after) && c != [] && c[0] == COLON
    requires LaidOut(c[1..], first, e.cell.before, e.cell.layout) && AllSpace(e.cell.after) && first.rest == e.cell.after + t
    ensures EntryAt(s, e, Member(x.value, first.value.value), t)
  {
    SpelledGot(u[1..], x, e.key);
    CellIsLaidOut(c[1..], first, e.cell.before, e.cell.layout, e.cell.after, t);
    FirstIs(u, QUOTE);
    FirstIs(c, COLON);
    hide *;
    EntryTail(e, t);
    QuotedTail(e.key, e.after + ([COLON] + (SpellCell(e.cell) + t)));
    EntryAtIs(s, e, Member(x.value, first.value.value), t);
  }

  lemma {:induction false} EntryAtIs(s: seq<Byte>, e: Entry, m: Member, t: seq<Byte>)
    requires AllSpace(e.before) && CharsFit(e.key) && AllSpace(e.after) && CellFits(e.cell) && Tight(e.cell.layout)
    requires Fits(e.cell.layout) && m == Member(CharsText(e.key), ValueOf(e.cell.layout)) && s == SpellEntry(e) + t
    ensures EntryAt(s, e, m, t)
  {
    hide Tight, Fits, CellFits, ValueOf, CharsText, SpellEntry, CharsFit, AllSpace;
  }

  lemma {:induction false} LastEntry(s: seq<Byte>, e: Entry, m: Member, done: seq<Member>, t: seq<Byte>, r: Parsed<Spent>)
    requires EntryAt(s, e, m, t) && t != [] && t[0] == CLOSE_OBJECT
    requires r.Got? && r.value.value == Object(done + [m]) && r.rest == t[1..]
    ensures EntriesLaidOut(s, r, done, [e])
  {
    hide Tight, Fits, ValueOf, SpellEntry, EntryFits, CharsText, CharsFit;
    FirstIs(t, CLOSE_OBJECT);
    assert [e][1..] == [] && MembersOf([]) == [];
    assert SpellEntry(e) + [] == SpellEntry(e);
  }

  lemma {:induction false} NextEntry(s: seq<Byte>, e: Entry, m: Member, done: seq<Member>, t: seq<Byte>, r: Parsed<Spent>, more: seq<Entry>)
    requires EntryAt(s, e, m, t) && t != [] && t[0] == COMMA && EntriesLaidOut(t[1..], r, done + [m], more)
    ensures EntriesLaidOut(s, r, done, [e] + more)
  {
    hide Tight, Fits, ValueOf, SpellEntry, SpellEntries, EntryFits, CharsText, CharsFit, MembersOf;
    FirstIs(t, COMMA);
    MoreEntries(e, m, more, r.rest);
    AppendThree(done, [m], MembersOf(more));
  }

  lemma {:induction false} MoreEntries(e: Entry, m: Member, more: seq<Entry>, rest: seq<Byte>)
    requires EntryFits(e) && CharsFit(e.key) && Fits(e.cell.layout) && Tight(e.cell.layout)
    requires m == Member(CharsText(e.key), ValueOf(e.cell.layout))
    requires EntriesFit(more) && EntriesTight(more) && more != []
    ensures EntriesFit([e] + more) && EntriesTight([e] + more) && MembersOf([e] + more) == [m] + MembersOf(more)
    ensures SpellEntries([e] + more) + ([CLOSE_OBJECT] + rest) == SpellEntry(e) + ([COMMA] + (SpellEntries(more) + ([CLOSE_OBJECT] + rest)))
  {
    hide Tight, Fits, EntryFits, ValueOf, SpellEntry, CharsText, CharsFit;
    assert ([e] + more)[1..] == more;
    AppendFour(SpellEntry(e), [COMMA], SpellEntries(more), [CLOSE_OBJECT] + rest);
    AppendThree(SpellEntry(e), [COMMA], SpellEntries(more));
  }

  /** Whatever strings, arrays and objects a document is read as, it was spelled by
      a tight layout of them. */
  lemma {:induction false} DocumentHasLayout(s: seq<Byte>) returns (before: seq<Byte>, l: Layout, after: seq<Byte>)
    requires Document(s).Some? && Plain(Document(s).value)
    ensures AllSpace(before) && Fits(l) && Tight(l) && AllSpace(after)
    ensures s == before + (Spell(l) + after) && ValueOf(l) == Document(s).value
  {
    hide *;
    DocumentIs(s);
    before, l := ReadHasLayout(s, 0, MAX_ELEMENTS);
    var r := ParseValue(s, 0, MAX_ELEMENTS);
    after := SpaceBefore(r.rest);
    LaidOutParts(s, r, before, l);
    assert after + [] == after;
  }

  lemma {:induction false} LaidOutParts(s: seq<Byte>, r: Parsed<Spent>, before: seq<Byte>, l: Layout)
    requires LaidOut(s, r, before, l)
    ensures r.Got? && AllSpace(before) && Fits(l) && Tight(l) && ValueOf(l) == r.value.value && s == before + (Spell(l) + r.rest)
  {
  }

  /** A tight layout of the value, white space around it, spells the document. */
  ghost predicate Spells(s: seq<Byte>, v: Value, before: seq<Byte>, l: Layout, after: seq<Byte>) {
    AllSpace(before) && Fits(l) && Tight(l) && AllSpace(after) && ValueOf(l) == v && s == before + (Spell(l) + after)
  }

  /** Within the limits, a document is read as a value exactly if the grammar, without
      white space in empty containers, derives it. */
  lemma {:induction false} DocumentIsSpelled(s: seq<Byte>, v: Value)
    requires Plain(v) && |s| <= MAX_INPUT && Spend(v, 0, MAX_ELEMENTS).Some?
    ensures Document(s) == Some(v) <==> exists before, l, after :: Spells(s, v, before, l, after)
  {
    hide Plain, Document, Spend, Fits, Tight, AllSpace, ValueOf, Spell;
    if Document(s) == Some(v) {
      var before, l, after := DocumentHasLayout(s);
      assert Spells(s, v, before, l, after);
    }
    if exists before, l, after :: Spells(s, v, before, l, after) {
      var before, l, after :| Spells(s, v, before, l, after);
      DocumentOfLayout(before, l, after);
    }
  }
}
