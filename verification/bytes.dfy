/** Bytes and the fixed-width little-endian integers read with `struct.unpack` ('<I', '<i', '<q'),
    plus `bytes.hex()`. */
module Bytes {

  type byte = b: int | 0 <= b < 256

  function Pow256(n: nat): (p: int)
    ensures p > 0
  {
    if n == 0 then 1 else 256 * Pow256(n - 1)
  }

  /** Unsigned little-endian value of `b`. */
  function Unsigned(b: seq<byte>): (x: nat)
    ensures x < Pow256(|b|)
    decreases |b|
  {
    if |b| == 0 then 0 else b[0] + 256 * Unsigned(b[1..])
  }

  /** Two's-complement little-endian value of `b`. */
  function Signed(b: seq<byte>): int
    requires |b| > 0
  {
    var u := Unsigned(b);
    if 2 * u >= Pow256(|b|) then u - Pow256(|b|) else u
  }

  /** The `n`-byte little-endian representation of `x`. */
  function EncodeUnsigned(x: nat, n: nat): (b: seq<byte>)
    requires x < Pow256(n)
    ensures |b| == n
    decreases n
  {
    if n == 0 then [] else [x % 256] + EncodeUnsigned(x / 256, n - 1)
  }

  /** The `n`-byte two's-complement little-endian representation of `x`. */
  function EncodeSigned(x: int, n: nat): (b: seq<byte>)
    requires n > 0
    requires -Pow256(n) <= 2 * x < Pow256(n)
    ensures |b| == n
  {
    if x < 0 then EncodeUnsigned(x + Pow256(n), n) else EncodeUnsigned(x, n)
  }

  lemma {:induction false} UnsignedEncodeUnsigned(x: nat, n: nat)
    requires x < Pow256(n)
    ensures Unsigned(EncodeUnsigned(x, n)) == x
    decreases n
  {
    if n > 0 {
      UnsignedEncodeUnsigned(x / 256, n - 1);
      assert EncodeUnsigned(x, n)[1..] == EncodeUnsigned(x / 256, n - 1);
    }
  }

  lemma {:induction false} EncodeUnsignedUnsigned(b: seq<byte>)
    ensures EncodeUnsigned(Unsigned(b), |b|) == b
    decreases |b|
  {
    if |b| > 0 {
      EncodeUnsignedUnsigned(b[1..]);
      var x := Unsigned(b);
      assert x % 256 == b[0] && x / 256 == Unsigned(b[1..]);
      assert b == [b[0]] + b[1..];
    }
  }

  /** Reading a signed little-endian integer gives back the value written. */
  lemma {:induction false} SignedEncodeSigned(x: int, n: nat)
    requires n > 0
    requires -Pow256(n) <= 2 * x < Pow256(n)
    ensures Signed(EncodeSigned(x, n)) == x
  {
    var p := Pow256(n);
    var u: nat := if x < 0 then x + p else x;
    assert u < p;
    assert EncodeSigned(x, n) == EncodeUnsigned(u, n);
    UnsignedEncodeUnsigned(u, n);
  }

  /** A signed read is in range, and writing the value back gives the same bytes. */
  lemma {:induction false} EncodeSignedSigned(b: seq<byte>)
    requires |b| > 0
    ensures -Pow256(|b|) <= 2 * Signed(b) < Pow256(|b|)
    ensures EncodeSigned(Signed(b), |b|) == b
  {
    var n := |b|;
    var p := Pow256(n);
    var u := Unsigned(b);
    var x := Signed(b);
    assert x == if 2 * u >= p then u - p else u;
    assert -p <= 2 * x < p;
    assert (if x < 0 then x + p else x) == u;
    assert EncodeSigned(x, n) == EncodeUnsigned(u, n);
    EncodeUnsignedUnsigned(b);
  }

  predicate IsHexDigit(c: char)
  {
    '0' <= c <= '9' || 'a' <= c <= 'f'
  }

  /** The lower-case hexadecimal digit for a nibble. */
  function HexDigit(d: nat): (c: char)
    requires d < 16
    ensures IsHexDigit(c)
  {
    if d < 10 then ('0' as int + d) as char else ('a' as int + d - 10) as char
  }

  /** `data.hex()`: two lower-case hexadecimal digits per byte, high nibble first. */
  function Hex(data: seq<byte>): (h: string)
    ensures |h| == 2 * |data|
    ensures forall i :: 0 <= i < |h| ==> IsHexDigit(h[i])
    decreases |data|
  {
    if |data| == 0 then ""
    else [HexDigit(data[0] / 16), HexDigit(data[0] % 16)] + Hex(data[1..])
  }

  function HexValue(c: char): (v: nat)
    ensures v < 16
  {
    if '0' <= c <= '9' then c as int - '0' as int
    else if 'a' <= c <= 'f' then c as int - 'a' as int + 10
    else 0
  }

  lemma {:induction false} HexValueOfDigit(d: nat)
    requires d < 16
    ensures HexValue(HexDigit(d)) == d
  {
  }

  lemma {:induction false} HexDigitOfValue(c: char)
    requires IsHexDigit(c)
    ensures HexDigit(HexValue(c)) == c
  {
  }

  /** `bytes.fromhex(h)` for the lower-case output of `Hex`. */
  function Unhex(h: string): seq<byte>
    requires |h| % 2 == 0
    decreases |h|
  {
    if |h| == 0 then [] else [16 * HexValue(h[0]) + HexValue(h[1])] + Unhex(h[2..])
  }

  /** The hex text determines the bytes it was made from. */
  lemma {:induction false} UnhexHex(data: seq<byte>)
    ensures Unhex(Hex(data)) == data
    decreases |data|
  {
    if |data| > 0 {
      UnhexHex(data[1..]);
      var h := Hex(data);
      var d := data[0];
      HexValueOfDigit(d / 16);
      HexValueOfDigit(d % 16);
      assert h[0] == HexDigit(d / 16) && h[1] == HexDigit(d % 16);
      assert 16 * (d / 16) + d % 16 == d;
      assert h[2..] == Hex(data[1..]);
      calc {
        Unhex(h);
        [16 * HexValue(h[0]) + HexValue(h[1])] + Unhex(h[2..]);
        [d] + data[1..];
        data;
      }
    }
  }

  /** Every even-length text of lower-case hexadecimal digits is the hex text of the bytes it
      reads back as, so `Hex` and `Unhex` are inverse bijections on such texts. */
  lemma {:induction false} HexUnhex(h: string)
    requires |h| % 2 == 0
    requires forall i :: 0 <= i < |h| ==> IsHexDigit(h[i])
    ensures Hex(Unhex(h)) == h
    decreases |h|
  {
    if |h| > 0 {
      var a, b := HexValue(h[0]), HexValue(h[1]);
      var d: byte := 16 * a + b;
      var rest := h[2..];
      assert forall i :: 0 <= i < |rest| ==> IsHexDigit(rest[i]) by {
        forall i | 0 <= i < |rest| ensures IsHexDigit(rest[i]) {
          assert rest[i] == h[i + 2];
        }
      }
      HexUnhex(rest);
      assert Unhex(h) == [d] + Unhex(rest);
      assert d / 16 == a && d % 16 == b;
      HexDigitOfValue(h[0]);
      HexDigitOfValue(h[1]);
      assert ([d] + Unhex(rest))[1..] == Unhex(rest);
      assert Hex(Unhex(h)) == [h[0], h[1]] + rest;
      assert [h[0], h[1]] + rest == h;
    }
  }
}
