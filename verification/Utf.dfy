/** UTF-8 and UTF-16 at the codec boundary: a strict scalar decoder, the scalar
    encoder, and the converters built from the two. */
module Utf {
  import opened Ids
  import opened Bytes
  import opened Fragments

  type Unit = u: nat | u < 0x1_0000

  datatype Kind =
    | Truncated | InvalidLead | BadContinuation | Overlong | Surrogate | TooLarge | NotConvertible

  datatype UtfError = UtfError(kind: Kind, offset: nat, length: nat)

  datatype Result<+T> = Ok(value: T) | Err(error: UtfError)

  datatype Decoded = Decoded(scalar: Scalar, bytes: nat)

  // ---- The bit layout of section 3 of RFC 3629 ----

  function SequenceLength(lead: Byte): nat {
    if lead < 0x80 then 1
    else if lead < 0xC0 then 0
    else if lead < 0xE0 then 2
    else if lead < 0xF0 then 3
    else if lead < 0xF5 then 4
    else 0
  }

  /** What a lead byte of an n-byte sequence adds to its payload. */
  function LeadMark(n: nat): Byte {
    if n <= 1 then 0 else if n == 2 then 0xC0 else if n == 3 then 0xE0 else 0xF0
  }

  function MinimumForLength(n: nat): nat {
    if n == 2 then 0x80 else if n == 3 then 0x800 else if n == 4 then 0x1_0000 else 0
  }

  function Power64(k: nat): (p: nat)
    ensures p > 0
  {
    if k == 0 then 1 else 64 * Power64(k - 1)
  }

  /** The first k + 1 bytes of the sequence that spells v in the lead byte of an
      n-byte sequence and k continuation bytes, whether or not v needs them all. */
  function Spelling(v: nat, n: nat, k: nat): (s: seq<int>)
    ensures |s| == k + 1
  {
    if k == 0 then [LeadMark(n) + v] else Spelling(v / 64, n, k - 1) + [0x80 + v % 64]
  }

  /** The bytes are the n-byte spelling of v. */
  predicate Spells(bytes: seq<Byte>, v: nat, n: nat) {
    1 <= n && bytes == Spelling(v, n, n - 1)
  }

  function ShortestLength(v: nat): nat {
    if v < 0x80 then 1 else if v < 0x800 then 2 else if v < 0x1_0000 then 3 else 4
  }

  predicate IsScalar(v: nat) {
    v < 0xD800 || 0xE000 <= v <= 0x10_FFFF
  }

  function Encoded(c: Scalar): (bytes: seq<Byte>)
    ensures 1 <= |bytes| <= 4
  {
    if c < 0x80 then [c]
    else if c < 0x800 then [0xC0 + c / 64, 0x80 + c % 64]
    else if c < 0x1_0000 then [0xE0 + c / 4096, 0x80 + c / 64 % 64, 0x80 + c % 64]
    else [0xF0 + c / 262144, 0x80 + c / 4096 % 64, 0x80 + c / 64 % 64, 0x80 + c % 64]
  }

  /** Section 2.1 of RFC 2781. */
  function Units(c: Scalar): (units: seq<Unit>)
    ensures 1 <= |units| <= 2
  {
    if c < 0x1_0000 then [c] else [0xD800 + (c - 0x1_0000) / 1024, 0xDC00 + (c - 0x1_0000) % 1024]
  }

  function Utf8(cs: seq<Scalar>): seq<Byte> {
    if cs == [] then [] else Encoded(cs[0]) + Utf8(cs[1..])
  }

  function Utf16(cs: seq<Scalar>): seq<Unit> {
    if cs == [] then [] else Units(cs[0]) + Utf16(cs[1..])
  }

  ghost predicate IsUtf8(bytes: seq<Byte>) {
    exists cs :: Utf8(cs) == bytes
  }

  lemma {:induction false} EncodedIsShortest(c: Scalar)
    ensures Spells(Encoded(c), c, ShortestLength(c))
    ensures MinimumForLength(ShortestLength(c)) <= c
    ensures SequenceLength(Encoded(c)[0]) == |Encoded(c)| == ShortestLength(c)
  {
    var n := ShortestLength(c);
    assert Spelling(c, n, 0) == [LeadMark(n) + c];
    if n >= 2 {
      assert Spelling(c, n, 1) == [LeadMark(n) + c / 64, 0x80 + c % 64];
    }
    if n >= 3 {
      assert c / 64 / 64 == c / 4096;
      assert Spelling(c / 64, n, 1) == [LeadMark(n) + c / 4096, 0x80 + c / 64 % 64];
      assert Spelling(c, n, 2) == [LeadMark(n) + c / 4096, 0x80 + c / 64 % 64, 0x80 + c % 64];
    }
    if n == 4 {
      assert c / 64 / 64 / 64 == c / 262144;
      assert Spelling(c / 64 / 64, n, 1) == [LeadMark(n) + c / 262144, 0x80 + c / 4096 % 64];
      assert Spelling(c / 64, n, 2) == [LeadMark(n) + c / 262144, 0x80 + c / 4096 % 64, 0x80 + c / 64 % 64];
    }
  }

  /** A spelling of a known length spells one value. */
  lemma {:induction false} SpellingIsInjective(v: nat, w: nat, n: nat, k: nat)
    requires Spelling(v, n, k) == Spelling(w, n, k)
    ensures v == w
  {
    var a, b := Spelling(v, n, k), Spelling(w, n, k);
    assert a[k] == b[k];
    if k > 0 {
      assert a[..k] == Spelling(v / 64, n, k - 1) && b[..k] == Spelling(w / 64, n, k - 1);
      SpellingIsInjective(v / 64, w / 64, n, k - 1);
    }
  }

  /** Every byte after the lead is a continuation byte. */
  lemma {:induction false} SpellingContinues(v: nat, n: nat, k: nat, i: nat)
    requires 1 <= i <= k
    ensures 0x80 <= Spelling(v, n, k)[i] < 0xC0
  {
    if i < k {
      SpellingContinues(v / 64, n, k - 1, i);
    }
  }

  // ---- Decoding one scalar ----

  /** What each verdict says of the bytes from a lead byte on. */
  ghost predicate IsFault(rest: seq<Byte>, e: UtfError) {
    rest != [] &&
    var n := SequenceLength(rest[0]);
    match e.kind
    case InvalidLead =>
      e.length == 1 && (0x80 <= rest[0] < 0xC0 || 0xF5 <= rest[0])
    case Truncated =>
      n > 0 && e.length == |rest| < n
    case BadContinuation =>
      0 < n == e.length <= |rest| && exists i :: 1 <= i < n && !(0x80 <= rest[i] < 0xC0)
    case Overlong =>
      0 < n == e.length <= |rest| && exists v: nat :: v < MinimumForLength(n) && Spells(rest[..n], v, n)
    case Surrogate =>
      e.length == 3 <= |rest| && exists v: nat :: 0xD800 <= v <= 0xDFFF && Spells(rest[..3], v, 3)
    case TooLarge =>
      e.length == 4 <= |rest| && exists v: nat :: v > 0x10_FFFF && Spells(rest[..4], v, 4)
    case NotConvertible => false
  }

  /** decode_scalar accepts exactly the sequences append_scalar writes, and names
      the reason and the lead byte of everything else. */
  method DecodeScalar(input: seq<Byte>, pos: nat) returns (r: Result<Decoded>)
    requires pos < |input|
    ensures r.Ok? <==> exists c: Scalar :: Encoded(c) <= input[pos..]
    ensures r.Ok? ==> r.value.bytes == |Encoded(r.value.scalar)| && Encoded(r.value.scalar) <= input[pos..]
    ensures r.Err? ==> r.error.offset == pos && IsFault(input[pos..], r.error)
  {
    hide Spelling, Encoded;
    ghost var rest := input[pos..];
    var lead := input[pos];
    var length := SequenceLength(lead);
    if length == 0 {
      NoneFits(rest);
      return Err(UtfError(InvalidLead, pos, 1));
    }
    if |input| - pos < length {
      NoneFits(rest);
      return Err(UtfError(Truncated, pos, |input| - pos));
    }
    var value: nat := lead - LeadMark(length);
    var i := 1;
    SpellingStarts(lead);
    while i < length
      invariant 1 <= i <= length
      invariant input[pos..pos + i] == Spelling(value, length, i - 1)
    {
      var b := input[pos + i];
      if !(0x80 <= b < 0xC0) {
        assert rest[i] == b;
        NotContinued(rest, i);
        return Err(UtfError(BadContinuation, pos, length));
      }
      SpellingGrows(value, length, i - 1, b);
      value := value * 64 + b % 64;
      i := i + 1;
      assert input[pos..pos + i] == input[pos..pos + i - 1] + [b];
    }
    assert rest[..length] == input[pos..pos + length];
    assert Spells(rest[..length], value, length);
    OnlySpelling(rest, value);
    if value < MinimumForLength(length) {
      return Err(UtfError(Overlong, pos, length));
    }
    if 0xD800 <= value <= 0xDFFF {
      return Err(UtfError(Surrogate, pos, length));
    }
    if value > 0x10_FFFF {
      return Err(UtfError(TooLarge, pos, length));
    }
    return Ok(Decoded(value, length));
  }

  lemma {:induction false} SpellingStarts(lead: Byte)
    requires SequenceLength(lead) > 0
    ensures LeadMark(SequenceLength(lead)) <= lead
    ensures Spelling(lead - LeadMark(SequenceLength(lead)), SequenceLength(lead), 0) == [lead]
  {
  }

  lemma {:induction false} SpellingGrows(v: nat, n: nat, k: nat, b: Byte)
    requires 0x80 <= b < 0xC0
    ensures Spelling(v * 64 + b % 64, n, k + 1) == Spelling(v, n, k) + [b]
  {
    assert (v * 64 + b % 64) / 64 == v;
  }

  /** An encoding at the front of the bytes has the length its lead byte names. */
  lemma {:induction false} FitsLead(rest: seq<Byte>, c: Scalar)
    requires Encoded(c) <= rest
    ensures rest != [] && SequenceLength(rest[0]) == |Encoded(c)| <= |rest|
    ensures Spells(rest[..|Encoded(c)|], c, |Encoded(c)|)
    ensures MinimumForLength(|Encoded(c)|) <= c
  {
    EncodedIsShortest(c);
    assert rest[..|Encoded(c)|] == Encoded(c);
    assert rest[0] == Encoded(c)[0];
  }

  lemma {:induction false} NoneFits(rest: seq<Byte>)
    requires rest != [] && (SequenceLength(rest[0]) == 0 || |rest| < SequenceLength(rest[0]))
    ensures forall c: Scalar :: !(Encoded(c) <= rest)
  {
    forall c: Scalar ensures !(Encoded(c) <= rest) {
      if Encoded(c) <= rest {
        FitsLead(rest, c);
      }
    }
  }

  lemma {:induction false} NotContinued(rest: seq<Byte>, i: nat)
    requires rest != [] && 1 <= i < SequenceLength(rest[0]) <= |rest|
    requires !(0x80 <= rest[i] < 0xC0)
    ensures forall c: Scalar :: !(Encoded(c) <= rest)
  {
    forall c: Scalar ensures !(Encoded(c) <= rest) {
      if Encoded(c) <= rest {
        FitsLead(rest, c);
        var n := |Encoded(c)|;
        SpellingContinues(c, n, n - 1, i);
      }
    }
  }

  /** Once the bytes spell a value, an encoding at their front can only be that
      value's, and it is there exactly when the value passes the three range tests. */
  lemma {:induction false} OnlySpelling(rest: seq<Byte>, v: nat)
    requires rest != [] && 1 <= SequenceLength(rest[0]) <= |rest|
    requires Spells(rest[..SequenceLength(rest[0])], v, SequenceLength(rest[0]))
    ensures forall c: Scalar :: Encoded(c) <= rest ==> c == v && MinimumForLength(SequenceLength(rest[0])) <= v
    ensures (IsScalar(v) && MinimumForLength(SequenceLength(rest[0])) <= v
            ==> Encoded(v) <= rest && |Encoded(v)| == SequenceLength(rest[0]))
    ensures 0xD800 <= v <= 0xDFFF && MinimumForLength(SequenceLength(rest[0])) <= v ==> SequenceLength(rest[0]) == 3
    ensures v > 0x10_FFFF ==> SequenceLength(rest[0]) == 4
  {
    var n := SequenceLength(rest[0]);
    forall c: Scalar | Encoded(c) <= rest ensures c == v && MinimumForLength(n) <= v {
      FitsLead(rest, c);
      SpellingIsInjective(c, v, n, n - 1);
    }
    assert rest[..n][0] == rest[0];
    SpellingBound(v, n, rest[0]);
    if IsScalar(v) && MinimumForLength(n) <= v {
      EncodedIsShortest(v);
    }
  }

  /** How large a value n bytes behind this lead can spell. */
  lemma {:induction false} SpellingBound(v: nat, n: nat, lead: Byte)
    requires 1 <= n == SequenceLength(lead)
    requires Spelling(v, n, n - 1)[0] == lead
    ensures n == 1 ==> v < 0x80
    ensures n == 2 ==> v < 0x800
    ensures n == 3 ==> v < 0x1_0000
  {
    if n == 2 {
      assert Spelling(v, n, 1)[0] == Spelling(v / 64, n, 0)[0];
    } else if n == 3 {
      assert Spelling(v, n, 2)[0] == Spelling(v / 64, n, 1)[0] == Spelling(v / 64 / 64, n, 0)[0];
    }
  }

  // ---- Appending one scalar ----

  method AppendScalar(out: seq<Byte>, codePoint: nat) returns (ok: bool, grown: seq<Byte>)
    ensures ok <==> IsScalar(codePoint)
    ensures ok ==> exists s :: grown == out + s && Spells(s, codePoint, ShortestLength(codePoint)) && s == Encoded(codePoint)
    ensures !ok ==> grown == out
  {
    grown := out;
    if codePoint > 0x10_FFFF || 0xD800 <= codePoint <= 0xDFFF {
      return false, grown;
    }
    if codePoint < 0x80 {
      grown := grown + [codePoint];
    } else if codePoint < 0x800 {
      grown := grown + [0xC0 + codePoint / 64];
      grown := grown + [0x80 + codePoint % 64];
    } else if codePoint < 0x1_0000 {
      grown := grown + [0xE0 + codePoint / 4096];
      grown := grown + [0x80 + codePoint / 64 % 64];
      grown := grown + [0x80 + codePoint % 64];
    } else {
      grown := grown + [0xF0 + codePoint / 262144];
      grown := grown + [0x80 + codePoint / 4096 % 64];
      grown := grown + [0x80 + codePoint / 64 % 64];
      grown := grown + [0x80 + codePoint % 64];
    }
    ok := true;
    EncodedIsShortest(codePoint);
    assert grown == out + Encoded(codePoint);
  }

  // ---- Both encodings are uniquely decodable ----

  /** No encoding is a proper prefix of another. */
  lemma {:induction false} EncodedIsPrefixFree(a: Scalar, b: Scalar, rest: seq<Byte>)
    requires Encoded(a) <= rest && Encoded(b) <= rest
    ensures a == b
  {
    FitsLead(rest, a);
    FitsLead(rest, b);
    SpellingIsInjective(a, b, |Encoded(a)|, |Encoded(a)| - 1);
  }

  lemma {:induction false} Utf8IsInjective(a: seq<Scalar>, b: seq<Scalar>)
    requires Utf8(a) == Utf8(b)
    ensures a == b
  {
    if a != [] && b != [] {
      EncodedIsPrefixFree(a[0], b[0], Utf8(a));
      var n := |Encoded(a[0])|;
      assert Utf8(a)[n..] == Utf8(a[1..]) && Utf8(b)[n..] == Utf8(b[1..]);
      Utf8IsInjective(a[1..], b[1..]);
      assert a == [a[0]] + a[1..] && b == [b[0]] + b[1..];
    }
  }

  lemma {:induction false} UnitsArePrefixFree(a: Scalar, b: Scalar, rest: seq<Unit>)
    requires Units(a) <= rest && Units(b) <= rest
    ensures a == b
  {
    assert Units(a)[0] == rest[0] == Units(b)[0];
    if a >= 0x1_0000 && b >= 0x1_0000 {
      assert Units(a)[1] == rest[1] == Units(b)[1];
    }
  }

  lemma {:induction false} Utf16IsInjective(a: seq<Scalar>, b: seq<Scalar>)
    requires Utf16(a) == Utf16(b)
    ensures a == b
  {
    if a != [] && b != [] {
      UnitsArePrefixFree(a[0], b[0], Utf16(a));
      var n := |Units(a[0])|;
      assert Utf16(a)[n..] == Utf16(a[1..]) && Utf16(b)[n..] == Utf16(b[1..]);
      Utf16IsInjective(a[1..], b[1..]);
      assert a == [a[0]] + a[1..] && b == [b[0]] + b[1..];
    }
  }

  /** The same text in the two encodings. */
  ghost predicate SameText(bytes: seq<Byte>, units: seq<Unit>) {
    exists cs :: Utf8(cs) == bytes && Utf16(cs) == units
  }

  /** The relation both converters compute is one to one, so each undoes the other. */
  lemma {:induction false} ConvertersAreInverse(bytes: seq<Byte>, units: seq<Unit>, bytes': seq<Byte>, units': seq<Unit>)
    requires SameText(bytes, units) && SameText(bytes', units')
    ensures bytes == bytes' <==> units == units'
  {
    var cs :| Utf8(cs) == bytes && Utf16(cs) == units;
    var cs' :| Utf8(cs') == bytes' && Utf16(cs') == units';
    if bytes == bytes' {
      Utf8IsInjective(cs, cs');
    }
    if units == units' {
      Utf16IsInjective(cs, cs');
    }
  }

  // ---- Scanning ----

  lemma {:induction false} Utf8Append(cs: seq<Scalar>, ds: seq<Scalar>)
    ensures Utf8(cs + ds) == Utf8(cs) + Utf8(ds)
  {
    if cs == [] {
      assert cs + ds == ds;
    } else {
      assert (cs + ds)[1..] == cs[1..] + ds;
      Utf8Append(cs[1..], ds);
    }
  }

  lemma {:induction false} Utf16Append(cs: seq<Scalar>, ds: seq<Scalar>)
    ensures Utf16(cs + ds) == Utf16(cs) + Utf16(ds)
  {
    if cs == [] {
      assert cs + ds == ds;
    } else {
      assert (cs + ds)[1..] == cs[1..] + ds;
      Utf16Append(cs[1..], ds);
    }
  }

  /** ASCII is text. */
  lemma {:induction false} AsciiIsText(s: seq<Byte>)
    requires forall i :: 0 <= i < |s| ==> s[i] < 0x80
    ensures IsUtf8(s)
  {
    if s == [] {
      assert Utf8([]) == [];
    } else {
      var rest := s[1..];
      AsciiIsText(rest);
      assert IsUtf8(rest);
      var cs :| Utf8(cs) == rest;
      var c: Scalar := s[0];
      Utf8Append([c], cs);
      assert Utf8([c]) == [c] + Utf8([]);
      assert Utf8([c] + cs) == s;
    }
  }

  /** A whole encoding that starts with a decoded part goes on from there. */
  lemma {:induction false} Utf8GoesOn(done: seq<Scalar>, cs: seq<Scalar>, rest: seq<Byte>)
    requires Utf8(cs) == Utf8(done) + rest
    ensures |done| <= |cs| && cs == done + cs[|done|..] && Utf8(cs[|done|..]) == rest
  {
    hide *;
    if done == [] {
      EmptyText();
      assert Utf8([]) + rest == rest && cs[0..] == cs;
    } else {
      Utf8SameHead(done, cs, rest);
      Utf8GoesOn(done[1..], cs[1..], rest);
      assert cs == [cs[0]] + cs[1..] && done == [done[0]] + done[1..];
      assert cs[1..][|done| - 1..] == cs[|done|..];
    }
  }

  lemma {:induction false} Utf8SameHead(done: seq<Scalar>, cs: seq<Scalar>, rest: seq<Byte>)
    requires done != [] && Utf8(cs) == Utf8(done) + rest
    ensures cs != [] && cs[0] == done[0] && Utf8(cs[1..]) == Utf8(done[1..]) + rest
  {
    hide Encoded;
    var n := |Encoded(done[0])|;
    assert Utf8(cs) == Encoded(done[0]) + (Utf8(done[1..]) + rest);
    EncodedIsPrefixFree(done[0], cs[0], Utf8(cs));
    assert Utf8(cs)[n..] == Utf8(cs[1..]);
  }

  /** The first fault: text up to its offset, and no scalar from there on. */
  ghost predicate FaultAt(input: seq<Byte>, e: UtfError) {
    e.offset < |input| &&
    IsFault(input[e.offset..], e) &&
    (exists cs :: Utf8(cs) == input[..e.offset]) &&
    forall cs :: Utf8(cs) != input
  }

  lemma {:induction false} EmptyText()
    ensures Utf8([]) == [] && Utf16([]) == []
  {
  }

  /** A decoded scalar extends the text read so far. */
  lemma {:induction false} Advance(input: seq<Byte>, done: seq<Scalar>, pos: nat, d: Decoded)
    requires pos <= |input| && Utf8(done) == input[..pos]
    requires d.bytes == |Encoded(d.scalar)| && Encoded(d.scalar) <= input[pos..]
    ensures pos + d.bytes <= |input| && Utf8(done + [d.scalar]) == input[..pos + d.bytes]
    ensures Utf16(done + [d.scalar]) == Utf16(done) + Units(d.scalar)
  {
    Utf8Append(done, [d.scalar]);
    Utf16Append(done, [d.scalar]);
    assert Utf8([d.scalar]) == Encoded(d.scalar) + Utf8([]);
    assert Utf16([d.scalar]) == Units(d.scalar) + Utf16([]);
    assert input[pos..][..d.bytes] == Encoded(d.scalar);
    assert input[..pos + d.bytes] == input[..pos] + input[pos..pos + d.bytes];
  }

  lemma {:induction false} StartsWithScalar(cs: seq<Scalar>)
    requires Utf8(cs) != []
    ensures exists c: Scalar :: Encoded(c) <= Utf8(cs)
  {
    assert Encoded(cs[0]) <= Utf8(cs);
  }

  lemma {:induction false} Stuck(input: seq<Byte>, done: seq<Scalar>, e: UtfError)
    requires e.offset < |input| && Utf8(done) == input[..e.offset]
    requires IsFault(input[e.offset..], e)
    requires forall c: Scalar :: !(Encoded(c) <= input[e.offset..])
    ensures FaultAt(input, e)
  {
    forall cs ensures Utf8(cs) != input {
      if Utf8(cs) == input {
        var rest := input[e.offset..];
        assert input == Utf8(done) + rest;
        Utf8GoesOn(done, cs, rest);
        StartsWithScalar(cs[|done|..]);
      }
    }
  }

  method ValidateUtf8(input: seq<Byte>) returns (r: Option<UtfError>)
    ensures r.None? <==> IsUtf8(input)
    ensures r.Some? ==> FaultAt(input, r.value)
  {
    hide Utf8, Utf16, Encoded;
    var pos := 0;
    ghost var done: seq<Scalar> := [];
    EmptyText();
    while pos < |input|
      invariant pos <= |input| && Utf8(done) == input[..pos]
    {
      var d := DecodeScalar(input, pos);
      if d.Err? {
        Stuck(input, done, d.error);
        return Some(d.error);
      }
      Advance(input, done, pos, d.value);
      done := done + [d.value.scalar];
      pos := pos + d.value.bytes;
    }
    assert input[..pos] == input;
    return None;
  }

  method Utf8Length(input: seq<Byte>) returns (r: Result<nat>)
    ensures r.Ok? ==> exists cs :: Utf8(cs) == input && |cs| == r.value
    ensures r.Err? ==> FaultAt(input, r.error)
  {
    hide Utf8, Utf16, Encoded;
    var pos := 0;
    var count := 0;
    ghost var done: seq<Scalar> := [];
    EmptyText();
    while pos < |input|
      invariant pos <= |input| && Utf8(done) == input[..pos]
      invariant count == |done|
    {
      var d := DecodeScalar(input, pos);
      if d.Err? {
        Stuck(input, done, d.error);
        return Err(d.error);
      }
      Advance(input, done, pos, d.value);
      done := done + [d.value.scalar];
      pos := pos + d.value.bytes;
      count := count + 1;
    }
    assert input[..pos] == input;
    return Ok(count);
  }

  /** The count is the length of what the conversion would produce. */
  method Utf16CodeUnitCount(input: seq<Byte>) returns (r: Result<nat>)
    ensures r.Ok? ==> (exists units :: SameText(input, units)) && forall units :: SameText(input, units) ==> |units| == r.value
    ensures r.Err? ==> FaultAt(input, r.error)
  {
    hide Utf8, Utf16, Encoded;
    var pos := 0;
    var units := 0;
    ghost var done: seq<Scalar> := [];
    EmptyText();
    while pos < |input|
      invariant pos <= |input| && Utf8(done) == input[..pos]
      invariant units == |Utf16(done)|
    {
      var d := DecodeScalar(input, pos);
      if d.Err? {
        Stuck(input, done, d.error);
        return Err(d.error);
      }
      Advance(input, done, pos, d.value);
      done := done + [d.value.scalar];
      units := units + if d.value.scalar >= 0x1_0000 then 2 else 1;
      pos := pos + d.value.bytes;
    }
    assert input[..pos] == input;
    assert SameText(input, Utf16(done));
    forall other | SameText(input, other) ensures |other| == units {
      ConvertersAreInverse(input, other, input, Utf16(done));
    }
    return Ok(units);
  }

  /** Section 2.1 of RFC 2781 after strict decoding. */
  method Utf8ToUtf16(input: seq<Byte>) returns (r: Result<seq<Unit>>)
    ensures r.Ok? ==> SameText(input, r.value)
    ensures r.Err? ==> FaultAt(input, r.error)
  {
    hide Utf8, Utf16, Encoded;
    var built: seq<Unit> := [];
    var pos := 0;
    ghost var done: seq<Scalar> := [];
    EmptyText();
    while pos < |input|
      invariant pos <= |input| && Utf8(done) == input[..pos]
      invariant built == Utf16(done)
    {
      var d := DecodeScalar(input, pos);
      if d.Err? {
        Stuck(input, done, d.error);
        return Err(d.error);
      }
      Advance(input, done, pos, d.value);
      done := done + [d.value.scalar];
      var scalar := d.value.scalar;
      if scalar < 0x1_0000 {
        built := built + [scalar];
      } else {
        var adjusted: nat := scalar as int - 0x1_0000;
        built := built + [0xD800 + adjusted / 1024];
        built := built + [0xDC00 + adjusted % 1024];
      }
      pos := pos + d.value.bytes;
    }
    assert input[..pos] == input;
    return Ok(built);
  }

  predicate IsHighSurrogate(u: Unit) {
    0xD800 <= u <= 0xDBFF
  }

  predicate IsLowSurrogate(u: Unit) {
    0xDC00 <= u <= 0xDFFF
  }

  /** The first surrogate without its other half. */
  ghost predicate UnpairedAt(input: seq<Unit>, i: nat) {
    i < |input| &&
    (exists cs :: Utf16(cs) == input[..i]) &&
    (IsLowSurrogate(input[i]) || (IsHighSurrogate(input[i]) && (i + 1 == |input| || !IsLowSurrogate(input[i + 1])))) &&
    forall cs :: Utf16(cs) != input
  }

  lemma {:induction false} Utf16GoesOn(done: seq<Scalar>, cs: seq<Scalar>, rest: seq<Unit>)
    requires Utf16(cs) == Utf16(done) + rest
    ensures |done| <= |cs| && cs == done + cs[|done|..] && Utf16(cs[|done|..]) == rest
  {
    hide *;
    if done == [] {
      EmptyText();
      assert Utf16([]) + rest == rest && cs[0..] == cs;
    } else {
      Utf16SameHead(done, cs, rest);
      Utf16GoesOn(done[1..], cs[1..], rest);
      assert cs == [cs[0]] + cs[1..] && done == [done[0]] + done[1..];
      assert cs[1..][|done| - 1..] == cs[|done|..];
    }
  }

  lemma {:induction false} Utf16SameHead(done: seq<Scalar>, cs: seq<Scalar>, rest: seq<Unit>)
    requires done != [] && Utf16(cs) == Utf16(done) + rest
    ensures cs != [] && cs[0] == done[0] && Utf16(cs[1..]) == Utf16(done[1..]) + rest
  {
    hide Units;
    var n := |Units(done[0])|;
    assert Utf16(cs) == Units(done[0]) + (Utf16(done[1..]) + rest);
    UnitsArePrefixFree(done[0], cs[0], Utf16(cs));
    assert Utf16(cs)[n..] == Utf16(cs[1..]);
  }

  /** A text never starts with half of a pair. */
  lemma {:induction false} StartsPaired(cs: seq<Scalar>)
    requires Utf16(cs) != []
    ensures !IsLowSurrogate(Utf16(cs)[0])
    ensures IsHighSurrogate(Utf16(cs)[0]) ==> |Utf16(cs)| > 1 && IsLowSurrogate(Utf16(cs)[1])
  {
    assert Units(cs[0]) <= Utf16(cs);
    assert Utf16(cs)[0] == Units(cs[0])[0];
    assert |Units(cs[0])| == 2 ==> Utf16(cs)[1] == Units(cs[0])[1];
  }

  lemma {:induction false} Unpaired(input: seq<Unit>, done: seq<Scalar>, i: nat)
    requires i < |input| && Utf16(done) == input[..i]
    requires IsLowSurrogate(input[i]) || (IsHighSurrogate(input[i]) && (i + 1 == |input| || !IsLowSurrogate(input[i + 1])))
    ensures UnpairedAt(input, i)
  {
    forall cs ensures Utf16(cs) != input {
      if Utf16(cs) == input {
        var rest := input[i..];
        assert input == Utf16(done) + rest;
        Utf16GoesOn(done, cs, rest);
        StartsPaired(cs[|done|..]);
      }
    }
  }

  lemma {:induction false} AdvanceUnits(input: seq<Unit>, done: seq<Scalar>, i: nat, c: Scalar)
    requires i <= |input| && Utf16(done) == input[..i]
    requires Units(c) <= input[i..]
    ensures i + |Units(c)| <= |input| && Utf16(done + [c]) == input[..i + |Units(c)|]
    ensures Utf8(done + [c]) == Utf8(done) + Encoded(c)
  {
    Utf8Append(done, [c]);
    Utf16Append(done, [c]);
    assert Utf8([c]) == Encoded(c) + Utf8([]);
    assert Utf16([c]) == Units(c) + Utf16([]);
    assert input[i..][..|Units(c)|] == Units(c);
    assert input[..i + |Units(c)|] == input[..i] + input[i..i + |Units(c)|];
  }

  /** Section 2.2 of RFC 2781. */
  method Utf16ToUtf8(input: seq<Unit>) returns (r: Result<seq<Byte>>)
    ensures r.Ok? ==> SameText(r.value, input)
    ensures r.Err? ==> r.error.kind == NotConvertible && r.error.length == 1 && UnpairedAt(input, r.error.offset)
  {
    hide Utf8, Utf16, Encoded;
    var built: seq<Byte> := [];
    ghost var done: seq<Scalar> := [];
    EmptyText();
    var i := 0;
    while i < |input|
      invariant i <= |input| && Utf16(done) == input[..i]
      invariant built == Utf8(done)
    {
      var unit := input[i];
      if IsHighSurrogate(unit) {
        if i + 1 >= |input| || !IsLowSurrogate(input[i + 1]) {
          Unpaired(input, done, i);
          return Err(UtfError(NotConvertible, i, 1));
        }
        var scalar: nat := 0x1_0000 + (unit as int - 0xD800) * 1024 + (input[i + 1] as int - 0xDC00);
        assert Units(scalar) == [unit, input[i + 1]] == input[i..][..2];
        AdvanceUnits(input, done, i, scalar);
        done := done + [scalar];
        var _, grown := AppendScalar(built, scalar);
        built := grown;
        i := i + 2;
        continue;
      }
      if IsLowSurrogate(unit) {
        Unpaired(input, done, i);
        return Err(UtfError(NotConvertible, i, 1));
      }
      assert Units(unit) == [unit] == input[i..][..1];
      AdvanceUnits(input, done, i, unit);
      done := done + [unit];
      var _, grown := AppendScalar(built, unit);
      built := grown;
      i := i + 1;
    }
    assert input[..i] == input;
    return Ok(built);
  }
}
