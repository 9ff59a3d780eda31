/** Bytes and Node's `buffer.toString("hex")`: two lower-case hexadecimal
    digits per byte, most significant nibble first. */
module Hex {
  import opened Js

  newtype byte = x: int | 0 <= x < 256

  predicate IsHexChar(c: char)
  {
    '0' <= c <= '9' || 'a' <= c <= 'f'
  }

  function HexChar(d: nat): (c: char)
    requires d < 16
    ensures IsHexChar(c)
  {
    if d < 10 then ('0' as int + d) as char else ('a' as int + d - 10) as char
  }

  function ToHex(bs: seq<byte>): (r: String)
    ensures |r| == 2 * |bs|
    ensures forall i :: 0 <= i < |r| ==> IsHexChar(r[i])
    ensures ':' !in r
  {
    if bs == [] then []
    else [HexChar(bs[0] as int / 16), HexChar(bs[0] as int % 16)] + ToHex(bs[1..])
  }

  /** Distinct byte strings have distinct hex text. */
  lemma {:induction false} ToHexInjective(a: seq<byte>, b: seq<byte>)
    requires ToHex(a) == ToHex(b)
    ensures a == b
    decreases |a|
  {
    if a != [] {
      var ra, rb := ToHex(a), ToHex(b);
      assert |b| == |a|;
      var x, y := a[0] as int, b[0] as int;
      assert ra[0] == rb[0] && ra[1] == rb[1];
      assert x / 16 == y / 16 && x % 16 == y % 16;
      assert ra[2..] == ToHex(a[1..]) && rb[2..] == ToHex(b[1..]);
      ToHexInjective(a[1..], b[1..]);
      assert a == [a[0]] + a[1..] && b == [b[0]] + b[1..];
    }
  }
}
