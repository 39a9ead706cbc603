/** UTF-16LE as Python's strict `bytes.decode('utf-16LE')` reads it: little-endian code units,
    surrogate pairs combined, and a failure on an odd byte count or an unpaired surrogate. */
module Utf16 {
  import opened Wrappers
  import opened Bytes

  type CodeUnit = u: int | 0 <= u < 0x1_0000

  predicate IsHighSurrogate(u: int)
  {
    0xD800 <= u < 0xDC00
  }

  predicate IsLowSurrogate(u: int)
  {
    0xDC00 <= u < 0xE000
  }

  function PairToChar(hi: CodeUnit, lo: CodeUnit): char
    requires IsHighSurrogate(hi) && IsLowSurrogate(lo)
  {
    (0x1_0000 + (hi - 0xD800) * 0x400 + (lo - 0xDC00)) as char
  }

  /** Code units to text; `None` when a surrogate is unpaired. */
  function Decode(units: seq<CodeUnit>): Option<string>
    decreases |units|
  {
    if |units| == 0 then Some("")
    else if IsHighSurrogate(units[0]) then
      if |units| >= 2 && IsLowSurrogate(units[1]) then
        match Decode(units[2..])
        case None => None
        case Some(rest) => Some([PairToChar(units[0], units[1])] + rest)
      else None
    else if IsLowSurrogate(units[0]) then None
    else
      match Decode(units[1..])
      case None => None
      case Some(rest) => Some([units[0] as char] + rest)
  }

  function EncodeChar(c: char): seq<CodeUnit>
  {
    var x := c as int;
    if x < 0x1_0000 then [x]
    else [0xD800 + (x - 0x1_0000) / 0x400, 0xDC00 + (x - 0x1_0000) % 0x400]
  }

  /** Text to code units; the reference the decoder is checked against. */
  function Encode(s: string): seq<CodeUnit>
    decreases |s|
  {
    if |s| == 0 then [] else EncodeChar(s[0]) + Encode(s[1..])
  }

  /** A character other than NUL never encodes to a zero unit. */
  lemma {:induction false} EncodeNoZero(s: string)
    requires forall i :: 0 <= i < |s| ==> s[i] != '\0'
    ensures forall k :: 0 <= k < |Encode(s)| ==> Encode(s)[k] != 0
    decreases |s|
  {
    if |s| > 0 {
      EncodeNoZero(s[1..]);
      assert Encode(s) == EncodeChar(s[0]) + Encode(s[1..]);
    }
  }

  /** Decoding undoes encoding. */
  lemma {:induction false} DecodeEncode(s: string)
    ensures Decode(Encode(s)) == Some(s)
    decreases |s|
  {
    if |s| > 0 {
      DecodeEncode(s[1..]);
      var u := Encode(s);
      var x := s[0] as int;
      assert u == EncodeChar(s[0]) + Encode(s[1..]);
      if x < 0x1_0000 {
        assert u[0] == x && !IsHighSurrogate(x) && !IsLowSurrogate(x);
        assert (x as char) == s[0];
        assert u[1..] == Encode(s[1..]);
        assert Decode(u) == Some([s[0]] + s[1..]);
        assert [s[0]] + s[1..] == s;
      } else {
        var q := (x - 0x1_0000) / 0x400;
        var r := (x - 0x1_0000) % 0x400;
        assert u[0] == 0xD800 + q && u[1] == 0xDC00 + r;
        assert u[2..] == Encode(s[1..]);
        assert 0x1_0000 + q * 0x400 + r == x;
        assert PairToChar(u[0], u[1]) == s[0];
        assert IsHighSurrogate(u[0]) && IsLowSurrogate(u[1]);
        assert Decode(u) == Some([s[0]] + s[1..]);
        assert [s[0]] + s[1..] == s;
      }
    }
  }

  /** Encoding undoes a successful decode, so well-formed unit sequences and texts correspond one to one. */
  lemma {:induction false} EncodeDecode(units: seq<CodeUnit>, s: string)
    requires Decode(units) == Some(s)
    ensures Encode(s) == units
    decreases |units|
  {
    if |units| > 0 {
      if IsHighSurrogate(units[0]) {
        var rest := Decode(units[2..]).value;
        EncodeDecode(units[2..], rest);
        var hi: int := units[0] - 0xD800;
        var lo: int := units[1] - 0xDC00;
        var x: int := 0x1_0000 + hi * 0x400 + lo;
        assert s[0] as int == x;
        assert (x - 0x1_0000) / 0x400 == hi && (x - 0x1_0000) % 0x400 == lo;
        assert EncodeChar(s[0]) == units[..2];
        assert s[1..] == rest;
        assert units == units[..2] + units[2..];
      } else {
        var rest := Decode(units[1..]).value;
        EncodeDecode(units[1..], rest);
        assert s[1..] == rest;
        assert units == units[..1] + units[1..];
      }
    }
  }

  /** Little-endian byte pairs to code units. */
  function UnitsOfBytes(b: seq<byte>): (units: seq<CodeUnit>)
    requires |b| % 2 == 0
    ensures |units| == |b| / 2
    decreases |b|
  {
    if |b| == 0 then [] else [b[0] as int + 256 * b[1] as int] + UnitsOfBytes(b[2..])
  }

  /** Code units to little-endian byte pairs. */
  function BytesOfUnits(units: seq<CodeUnit>): (b: seq<byte>)
    ensures |b| == 2 * |units|
    decreases |units|
  {
    if |units| == 0 then [] else [units[0] % 256, units[0] / 256] + BytesOfUnits(units[1..])
  }

  lemma {:induction false} UnitsOfBytesOfUnits(units: seq<CodeUnit>)
    ensures UnitsOfBytes(BytesOfUnits(units)) == units
    decreases |units|
  {
    if |units| > 0 {
      UnitsOfBytesOfUnits(units[1..]);
      var b := BytesOfUnits(units);
      assert b[2..] == BytesOfUnits(units[1..]);
    }
  }

  lemma {:induction false} BytesOfUnitsOfBytes(b: seq<byte>)
    requires |b| % 2 == 0
    ensures BytesOfUnits(UnitsOfBytes(b)) == b
    decreases |b|
  {
    if |b| > 0 {
      BytesOfUnitsOfBytes(b[2..]);
      var u := UnitsOfBytes(b);
      assert u[1..] == UnitsOfBytes(b[2..]);
      assert b == [b[0], b[1]] + b[2..];
    }
  }

  /** `data.decode('utf-16LE')`. */
  function DecodeLE(data: seq<byte>): Option<string>
  {
    if |data| % 2 != 0 then None else Decode(UnitsOfBytes(data))
  }

  /** `text.encode('utf-16LE')`. */
  function EncodeLE(s: string): seq<byte>
  {
    BytesOfUnits(Encode(s))
  }

  /** Reading back what was written gives the same text. */
  lemma {:induction false} DecodeLEEncodeLE(s: string)
    ensures DecodeLE(EncodeLE(s)) == Some(s)
  {
    UnitsOfBytesOfUnits(Encode(s));
    DecodeEncode(s);
  }

  /** A successfully decoded text re-encodes to exactly the bytes it came from. */
  lemma {:induction false} EncodeLEDecodeLE(data: seq<byte>, s: string)
    requires DecodeLE(data) == Some(s)
    ensures EncodeLE(s) == data
  {
    EncodeDecode(UnitsOfBytes(data), s);
    BytesOfUnitsOfBytes(data);
  }
}
