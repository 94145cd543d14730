/** `Buffer.toString("hex")`: two lower-case hex digits per byte, high
    nibble first, and the decoder it is the inverse of. */
module Hex {
  import opened Wrappers
  import opened Bytes

  /** The ASCII code of the lower-case hex digit for `v`. */
  function HexDigit(v: int): (c: byte)
    requires 0 <= v < 16
  {
    if v < 10 then (48 + v) as byte else (87 + v) as byte  // '0'..'9', 'a'..'f'
  }

  /** The value of a lower-case hex digit, None for any other byte. */
  function HexValue(c: byte): (r: Option<int>)
    ensures r.Some? ==> 0 <= r.value < 16 && HexDigit(r.value) == c
  {
    if 48 <= c <= 57 then Some(c as int - 48)
    else if 97 <= c <= 102 then Some(c as int - 87)
    else None
  }

  lemma HexValueDigit(v: int)
    requires 0 <= v < 16
    ensures HexValue(HexDigit(v)) == Some(v)
  {
  }

  function HexEncode(raw: seq<byte>): (hex: seq<byte>)
    ensures |hex| == 2 * |raw|
  {
    if raw == [] then []
    else [HexDigit(raw[0] as int / 16), HexDigit(raw[0] as int % 16)] + HexEncode(raw[1..])
  }

  /** Byte `i` is spelled by characters `2i` and `2i + 1`: its high nibble,
      then its low nibble. */
  lemma {:induction false} HexEncodeAt(raw: seq<byte>, i: nat)
    requires i < |raw|
    ensures HexEncode(raw)[2 * i] == HexDigit(raw[i] as int / 16)
    ensures HexEncode(raw)[2 * i + 1] == HexDigit(raw[i] as int % 16)
    decreases i
  {
    if i > 0 {
      HexEncodeAt(raw[1..], i - 1);
      assert HexEncode(raw)[2..] == HexEncode(raw[1..]);
    }
  }

  /** Reads pairs of lower-case hex digits back into bytes. */
  function HexDecode(hex: seq<byte>): Option<seq<byte>>
    decreases |hex|
  {
    if |hex| == 0 then Some([])
    else if |hex| == 1 then None
    else match (HexValue(hex[0]), HexValue(hex[1]), HexDecode(hex[2..]))
      case (Some(h), Some(l), Some(rest)) => Some([(16 * h + l) as byte] + rest)
      case _ => None
  }

  lemma {:induction false} HexEncodeAppend(a: seq<byte>, b: seq<byte>)
    ensures HexEncode(a + b) == HexEncode(a) + HexEncode(b)
    decreases |a|
  {
    if a == [] {
      assert a + b == b;
    } else {
      assert (a + b)[0] == a[0] && (a + b)[1..] == a[1..] + b;
      HexEncodeAppend(a[1..], b);
    }
  }

  /** Decoding undoes encoding. */
  lemma {:induction false} HexDecodeEncode(raw: seq<byte>)
    ensures HexDecode(HexEncode(raw)) == Some(raw)
    decreases |raw|
  {
    if raw != [] {
      var hex := HexEncode(raw);
      var h, l := raw[0] as int / 16, raw[0] as int % 16;
      HexValueDigit(h);
      HexValueDigit(l);
      HexDecodeEncode(raw[1..]);
      assert hex[2..] == HexEncode(raw[1..]);
      assert (16 * h + l) as byte == raw[0];
      assert raw == [raw[0]] + raw[1..];
    }
  }

  /** Encoding undoes decoding: a string the decoder accepts is exactly the
      encoding of what it decodes to, so each byte string has one spelling. */
  lemma {:induction false} HexEncodeDecode(hex: seq<byte>, raw: seq<byte>)
    requires HexDecode(hex) == Some(raw)
    ensures HexEncode(raw) == hex
    decreases |hex|
  {
    if |hex| >= 2 {
      var h, l, rest := HexValue(hex[0]).value, HexValue(hex[1]).value, HexDecode(hex[2..]).value;
      HexEncodeDecode(hex[2..], rest);
      var b := (16 * h + l) as byte;
      assert raw == [b] + rest;
      assert b as int / 16 == h && b as int % 16 == l;
      assert raw[1..] == rest;
      assert hex == [hex[0], hex[1]] + hex[2..];
    }
  }

  /** `n` zero bytes, the padding the splicer encodes. */
  function ZeroBytes(n: nat): (z: seq<byte>)
    ensures |z| == n && forall i :: 0 <= i < n ==> z[i] == 0
  {
    seq(n, _ => 0)
  }

  /** Zero bytes encode to the digit '0', twice per byte. */
  lemma HexEncodeZeros(n: nat)
    ensures HexEncode(ZeroBytes(n)) == ZeroDigits(2 * n)
  {
    var hex, z := HexEncode(ZeroBytes(n)), ZeroBytes(n);
    forall k | 0 <= k < 2 * n
      ensures hex[k] == DigitZero
    {
      var i := k / 2;
      HexEncodeAt(z, i);
      assert z[i] == 0;
      assert k == 2 * i || k == 2 * i + 1;
    }
  }
}
