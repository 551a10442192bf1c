/** UTF-8 as RFC 3629 defines it: the byte form of a string, which bounds a
    callback token (Buffer.byteLength) and which percent-encoding escapes. */
module Utf8 {
  import opened Wrappers

  newtype byte = x: int | 0 <= x < 0x100

  /** A Unicode scalar value: a code point that is not a surrogate. */
  predicate IsScalar(n: int) {
    0 <= n < 0xD800 || 0xE000 <= n < 0x11_0000
  }

  /** A byte of the form 10xxxxxx, which continues a multi-byte sequence. */
  predicate IsContinuation(b: byte) {
    0x80 <= b < 0xC0
  }

  /** The number of leading one bits of a byte. */
  function LeadingOnes(b: byte): (n: nat)
    ensures n <= 8
  {
    if b < 0x80 then 0
    else if b < 0xC0 then 1
    else if b < 0xE0 then 2
    else if b < 0xF0 then 3
    else if b < 0xF8 then 4
    else if b < 0xFC then 5
    else if b < 0xFE then 6
    else if b < 0xFF then 7
    else 8
  }

  /** The six payload bits of a continuation byte. */
  function Payload(b: byte): int
    requires IsContinuation(b)
  {
    b as int - 0x80
  }

  /** The shortest UTF-8 form of a scalar value (section 3 of RFC 3629):
      one byte below 0x80, otherwise a lead byte announcing the length
      followed by continuation bytes. */
  function EncodeScalar(n: int): (bs: seq<byte>)
    requires IsScalar(n)
    ensures 1 <= |bs| <= 4
    ensures |bs| == 1 <==> n < 0x80
    ensures |bs| == 1 ==> bs[0] as int == n
    ensures |bs| > 1 ==> LeadingOnes(bs[0]) == |bs|
    ensures forall i :: 1 <= i < |bs| ==> IsContinuation(bs[i])
  {
    if n < 0x80 then
      [n as byte]
    else if n < 0x800 then
      [(0xC0 + n / 64) as byte, (0x80 + n % 64) as byte]
    else if n < 0x1_0000 then
      [(0xE0 + n / 4096) as byte, (0x80 + n / 64 % 64) as byte, (0x80 + n % 64) as byte]
    else
      [(0xF0 + n / 0x4_0000) as byte, (0x80 + n / 4096 % 64) as byte,
       (0x80 + n / 64 % 64) as byte, (0x80 + n % 64) as byte]
  }

  /** Decodes one complete sequence of octets to a scalar value, or None when
      the octets are not a valid UTF-8 encoding of one code point: a wrong
      lead byte, a missing continuation byte, an overlong form, a surrogate
      or a value above 0x10FFFF. */
  function DecodeScalar(bs: seq<byte>): (r: Option<int>)
    ensures r.Some? ==> IsScalar(r.value)
  {
    if |bs| == 1 && bs[0] < 0x80 then
      Some(bs[0] as int)
    else if |bs| == 2 && LeadingOnes(bs[0]) == 2 && IsContinuation(bs[1]) then
      var n := (bs[0] as int - 0xC0) * 64 + Payload(bs[1]);
      if 0x80 <= n then Some(n) else None
    else if |bs| == 3 && LeadingOnes(bs[0]) == 3 && IsContinuation(bs[1]) && IsContinuation(bs[2]) then
      var n := ((bs[0] as int - 0xE0) * 64 + Payload(bs[1])) * 64 + Payload(bs[2]);
      if 0x800 <= n && IsScalar(n) then Some(n) else None
    else if |bs| == 4 && LeadingOnes(bs[0]) == 4 && IsContinuation(bs[1]) && IsContinuation(bs[2])
            && IsContinuation(bs[3]) then
      var n := (((bs[0] as int - 0xF0) * 64 + Payload(bs[1])) * 64 + Payload(bs[2])) * 64 + Payload(bs[3]);
      if 0x1_0000 <= n < 0x11_0000 then Some(n) else None
    else
      None
  }

  lemma DecodeEncodeThree(n: int)
    requires IsScalar(n) && 0x800 <= n < 0x1_0000
    ensures DecodeScalar(EncodeScalar(n)) == Some(n)
  {
    var n1 := n / 64;
    assert n1 * 64 + n % 64 == n;
    assert n / 4096 == n1 / 64;
    assert (n1 / 64) * 64 + n1 % 64 == n1;
  }

  lemma DecodeEncodeFour(n: int)
    requires IsScalar(n) && 0x1_0000 <= n
    ensures DecodeScalar(EncodeScalar(n)) == Some(n)
  {
    var n1 := n / 64;
    var n2 := n1 / 64;
    assert n1 * 64 + n % 64 == n;
    assert n2 * 64 + n1 % 64 == n1;
    assert n / 4096 == n2;
    assert n / 0x4_0000 == n2 / 64;
    assert (n2 / 64) * 64 + n2 % 64 == n2;
  }

  /** Decoding undoes encoding. */
  lemma DecodeEncodeScalar(n: int)
    requires IsScalar(n)
    ensures DecodeScalar(EncodeScalar(n)) == Some(n)
  {
    if n < 0x80 {
    } else if n < 0x800 {
      assert (n / 64) * 64 + n % 64 == n;
    } else if n < 0x1_0000 {
      DecodeEncodeThree(n);
    } else {
      DecodeEncodeFour(n);
    }
  }

  lemma DivMod64(q: int, r: int)
    requires 0 <= r < 64
    ensures (q * 64 + r) / 64 == q && (q * 64 + r) % 64 == r
  {
  }

  lemma EncodeDecodeTwo(bs: seq<byte>)
    requires |bs| == 2 && DecodeScalar(bs).Some?
    ensures EncodeScalar(DecodeScalar(bs).value) == bs
  {
    DivMod64(bs[0] as int - 0xC0, Payload(bs[1]));
  }

  lemma EncodeDecodeThree(bs: seq<byte>)
    requires |bs| == 3 && DecodeScalar(bs).Some?
    ensures EncodeScalar(DecodeScalar(bs).value) == bs
  {
    var n := DecodeScalar(bs).value;
    var n1 := (bs[0] as int - 0xE0) * 64 + Payload(bs[1]);
    assert n == n1 * 64 + Payload(bs[2]);
    DivMod64(n1, Payload(bs[2]));
    DivMod64(bs[0] as int - 0xE0, Payload(bs[1]));
    assert n / 64 == n1;
    assert n / 4096 == n1 / 64;
  }

  lemma EncodeDecodeFour(bs: seq<byte>)
    requires |bs| == 4 && DecodeScalar(bs).Some?
    ensures EncodeScalar(DecodeScalar(bs).value) == bs
  {
    var n := DecodeScalar(bs).value;
    var n1 := (bs[0] as int - 0xF0) * 64 + Payload(bs[1]);
    var n2 := n1 * 64 + Payload(bs[2]);
    assert n == n2 * 64 + Payload(bs[3]);
    DivMod64(n2, Payload(bs[3]));
    DivMod64(n1, Payload(bs[2]));
    DivMod64(bs[0] as int - 0xF0, Payload(bs[1]));
    assert n / 64 == n2;
    assert n / 4096 == n2 / 64;
    assert n / 0x4_0000 == n1 / 64;
  }

  /** Only the shortest form decodes: any octets that decode are exactly the
      encoding of the value they decode to. */
  lemma EncodeDecodeScalar(bs: seq<byte>)
    requires DecodeScalar(bs).Some?
    ensures EncodeScalar(DecodeScalar(bs).value) == bs
  {
    if |bs| == 2 {
      EncodeDecodeTwo(bs);
    } else if |bs| == 3 {
      EncodeDecodeThree(bs);
    } else if |bs| == 4 {
      EncodeDecodeFour(bs);
    }
  }

  /** The UTF-8 form of a string, character by character. */
  function Encode(s: string): (bs: seq<byte>)
    ensures |s| <= |bs| <= 4 * |s|
  {
    if s == [] then [] else EncodeScalar(s[0] as int) + Encode(s[1..])
  }

  predicate IsAscii(s: string) {
    forall i :: 0 <= i < |s| ==> s[i] as int < 0x80
  }

  /** The encoding of a concatenation is the concatenation of the encodings. */
  lemma {:induction false} EncodeConcat(a: string, b: string)
    ensures Encode(a + b) == Encode(a) + Encode(b)
  {
    if a != [] {
      assert (a + b)[0] == a[0] && (a + b)[1..] == a[1..] + b;
      EncodeConcat(a[1..], b);
      assert Encode(a + b) == EncodeScalar(a[0] as int) + (Encode(a[1..]) + Encode(b));
    } else {
      assert a + b == b;
    }
  }

  /** An ASCII string takes one byte per character, and only an ASCII string does. */
  lemma {:induction false} AsciiLength(s: string)
    ensures |Encode(s)| == |s| <==> IsAscii(s)
  {
    if s != [] {
      AsciiLength(s[1..]);
      if !IsAscii(s) && s[0] as int < 0x80 {
        var i :| 0 <= i < |s| && s[i] as int >= 0x80;
        assert s[1..][i - 1] == s[i];
      }
    }
  }
}
