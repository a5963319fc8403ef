/** Bytes, fixed-width big-endian numbers, and what it means to read a field off
    the front of a byte string. */
module Bytes {

  type Byte = b: nat | b < 0x100

  function Power256(k: nat): (p: nat)
    ensures p > 0
  {
    if k == 0 then 1 else 256 * Power256(k - 1)
  }

  /** The low `width` bytes of a number, most significant first. */
  function BigEndian(value: nat, width: nat): (s: seq<Byte>)
    ensures |s| == width
  {
    if width == 0 then [] else BigEndian(value / 256, width - 1) + [value % 256]
  }

  function NumberOf(s: seq<Byte>): nat {
    if s == [] then 0 else NumberOf(s[..|s| - 1]) * 256 + s[|s| - 1]
  }

  lemma {:induction false} NumberIsBounded(s: seq<Byte>)
    ensures NumberOf(s) < Power256(|s|)
  {
    if s != [] {
      NumberIsBounded(s[..|s| - 1]);
    }
  }

  /** A number that fits its width survives the trip... */
  lemma {:induction false} NumberSurvives(value: nat, width: nat)
    requires value < Power256(width)
    ensures NumberOf(BigEndian(value, width)) == value
  {
    if width > 0 {
      NumberSurvives(value / 256, width - 1);
      assert BigEndian(value, width)[..width - 1] == BigEndian(value / 256, width - 1);
    }
  }

  /** ...and so does every byte string of that width. */
  lemma {:induction false} BytesSurvive(s: seq<Byte>)
    ensures BigEndian(NumberOf(s), |s|) == s
  {
    if s != [] {
      var n := |s| - 1;
      BytesSurvive(s[..n]);
      assert NumberOf(s) / 256 == NumberOf(s[..n]) && NumberOf(s) % 256 == s[n];
      assert s == s[..n] + [s[n]];
    }
  }

  /** The number without its n low bytes. */
  function Shift(value: nat, n: nat): nat {
    if n == 0 then value else Shift(value, n - 1) / 256
  }

  /** A field read off the front, with what is left. */
  datatype Parsed<+T> = Fail | Got(value: T, rest: seq<Byte>) {
    predicate IsFailure() { Fail? }

    function PropagateFailure<U>(): Parsed<U>
      requires Fail?
    {
      Fail
    }

    function Extract(): (T, seq<Byte>)
      requires Got?
    {
      (value, rest)
    }
  }

  function GetNumber(s: seq<Byte>, width: nat): Parsed<nat> {
    if |s| < width then Fail else Got(NumberOf(s[..width]), s[width..])
  }

  lemma {:induction false} GetPutNumber(value: nat, width: nat, rest: seq<Byte>)
    requires value < Power256(width)
    ensures GetNumber(BigEndian(value, width) + rest, width) == Got(value, rest)
  {
    var s := BigEndian(value, width) + rest;
    assert s[..width] == BigEndian(value, width) && s[width..] == rest;
    NumberSurvives(value, width);
  }

  lemma {:induction false} PutGetNumber(s: seq<Byte>, width: nat)
    requires GetNumber(s, width).Got?
    ensures GetNumber(s, width).value < Power256(width)
    ensures s == BigEndian(GetNumber(s, width).value, width) + GetNumber(s, width).rest
  {
    BytesSurvive(s[..width]);
    NumberIsBounded(s[..width]);
    assert s == s[..width] + s[width..];
  }
}
