/** encodeURIComponent and decodeURIComponent (sections 18.2.6.1 and 18.2.6.5
    of ECMAScript 2015): percent-encoding in the sense of section 2.1 of
    RFC 3986, applied to the UTF-8 bytes of every character outside the
    unreserved set. */
module Uri {
  import opened Wrappers
  import opened Utf8
  import opened Text

  /** uriAlpha, DecimalDigit and uriMark: the characters encodeURIComponent
      leaves as they are. */
  predicate IsUnreserved(c: char) {
    || ('A' <= c <= 'Z') || ('a' <= c <= 'z') || ('0' <= c <= '9')
    || c == '-' || c == '_' || c == '.' || c == '!' || c == '~'
    || c == '*' || c == '\'' || c == '(' || c == ')'
  }

  /** The characters an encoded component can contain. */
  predicate IsEncodedChar(c: char) {
    IsUnreserved(c) || c == '%'
  }

  /** An upper-case hexadecimal digit, as encodeURIComponent writes it. */
  function HexDigit(d: int): (c: char)
    requires 0 <= d < 16
    ensures IsUnreserved(c) && c != '_'
  {
    if d < 10 then ('0' as int + d) as char else ('A' as int + d - 10) as char
  }

  /** The value of a hexadecimal digit of either case. */
  function HexValue(c: char): (r: Option<int>)
    ensures r.Some? ==> 0 <= r.value < 16
  {
    if '0' <= c <= '9' then Some(c as int - '0' as int)
    else if 'A' <= c <= 'F' then Some(c as int - 'A' as int + 10)
    else if 'a' <= c <= 'f' then Some(c as int - 'a' as int + 10)
    else None
  }

  /** `%XY`: the escape of one byte. */
  function EscapeByte(b: byte): (r: string)
    ensures |r| == 3 && r[0] == '%'
  {
    ['%', HexDigit(b as int / 16), HexDigit(b as int % 16)]
  }

  function EscapeBytes(bs: seq<byte>): (r: string)
    ensures |r| == 3 * |bs|
    ensures forall i :: 0 <= i < |r| ==> IsEncodedChar(r[i]) && r[i] != '_'
  {
    if bs == [] then [] else EscapeByte(bs[0]) + EscapeBytes(bs[1..])
  }

  /** One character's encoding: itself when unreserved, otherwise the escapes
      of its UTF-8 bytes. */
  function EncodeChar(c: char): (r: string)
    ensures r != []
    ensures forall i :: 0 <= i < |r| ==> IsEncodedChar(r[i])
    ensures c != '_' ==> '_' !in r
  {
    if IsUnreserved(c) then [c] else EscapeBytes(EncodeScalar(c as int))
  }

  /** encodeURIComponent. */
  function EncodeUriComponent(s: string): (r: string)
    ensures |s| <= |r|
    ensures r == [] <==> s == []
  {
    if s == [] then [] else EncodeChar(s[0]) + EncodeUriComponent(s[1..])
  }

  /** Every character of an encoded component is unreserved or `%`, and an
      underscore comes out only where one went in. */
  lemma {:induction false} EncodedChars(s: string)
    ensures forall i :: 0 <= i < |EncodeUriComponent(s)| ==> IsEncodedChar(EncodeUriComponent(s)[i])
    ensures '_' !in s ==> '_' !in EncodeUriComponent(s)
  {
    if s != [] {
      EncodedChars(s[1..]);
      var head := EncodeChar(s[0]);
      var tail := EncodeUriComponent(s[1..]);
      assert EncodeUriComponent(s) == head + tail;
      assert forall i :: |head| <= i < |head + tail| ==> (head + tail)[i] == tail[i - |head|];
      if '_' !in s {
        assert s[0] != '_' && '_' !in s[1..];
      }
    }
  }

  /** Reads `%XY` at the front of `s`. */
  function ReadEscape(s: string): (r: Option<byte>)
  {
    if |s| >= 3 && s[0] == '%' then
      match (HexValue(s[1]), HexValue(s[2]))
      case (Some(hi), Some(lo)) => Some((hi * 16 + lo) as byte)
      case _ => None
    else None
  }

  /** Reads `count` escapes of continuation bytes at the front of `s`. */
  function ReadContinuations(s: string, count: nat): (r: Option<seq<byte>>)
    ensures r.Some? ==> |r.value| == count && 3 * count <= |s|
    decreases count
  {
    if count == 0 then Some([])
    else match ReadEscape(s)
      case Some(b) =>
        if IsContinuation(b) then
          match ReadContinuations(s[3..], count - 1)
          case Some(rest) => Some([b] + rest)
          case None => None
        else None
      case None => None
  }

  function Cons(c: char, rest: Option<string>): Option<string> {
    match rest
    case Some(t) => Some([c] + t)
    case None => None
  }

  /** decodeURIComponent; None where it throws URIError: a `%` not followed by
      two hexadecimal digits, a lead byte with one or more than four leading
      ones, a missing or malformed continuation escape, or octets that are
      not valid UTF-8. */
  function DecodeUriComponent(s: string): (r: Option<string>)
    decreases |s|
  {
    if s == [] then Some([])
    else if s[0] != '%' then Cons(s[0], DecodeUriComponent(s[1..]))
    else match ReadEscape(s)
      case None => None
      case Some(b) =>
        if b < 0x80 then Cons(b as int as char, DecodeUriComponent(s[3..]))
        else
          var n := LeadingOnes(b);
          if n == 1 || n > 4 || 3 * n > |s| then None
          else match ReadContinuations(s[3..], n - 1)
            case None => None
            case Some(tail) =>
              match DecodeScalar([b] + tail)
              case None => None
              case Some(cp) => Cons(cp as char, DecodeUriComponent(s[3 * n..]))
  }

  lemma ReadEscapeByte(b: byte, rest: string)
    ensures ReadEscape(EscapeByte(b) + rest) == Some(b)
  {
    var e := EscapeByte(b) + rest;
    assert HexValue(e[1]) == Some(b as int / 16);
    assert HexValue(e[2]) == Some(b as int % 16);
  }

  lemma {:induction false} ReadContinuationEscapes(bs: seq<byte>, rest: string)
    requires forall i :: 0 <= i < |bs| ==> IsContinuation(bs[i])
    ensures ReadContinuations(EscapeBytes(bs) + rest, |bs|) == Some(bs)
  {
    if bs != [] {
      var s := EscapeBytes(bs) + rest;
      assert s == EscapeByte(bs[0]) + (EscapeBytes(bs[1..]) + rest);
      ReadEscapeByte(bs[0], EscapeBytes(bs[1..]) + rest);
      assert s[3..] == EscapeBytes(bs[1..]) + rest;
      ReadContinuationEscapes(bs[1..], rest);
      assert [bs[0]] + bs[1..] == bs;
    }
  }

  /** An escaped ASCII character decodes from its single escape. */
  lemma DecodeEscapedAscii(c: char, rest: string)
    requires !IsUnreserved(c) && c as int < 0x80
    ensures DecodeUriComponent(EncodeChar(c) + rest) == Cons(c, DecodeUriComponent(rest))
  {
    var bs := EncodeScalar(c as int);
    assert bs == [c as int as byte];
    var s := EncodeChar(c) + rest;
    assert s == EscapeByte(bs[0]) + rest;
    ReadEscapeByte(bs[0], rest);
    assert s[3..] == rest;
  }

  /** A character outside ASCII decodes from the escapes of its UTF-8 bytes. */
  lemma DecodeEscapedMultibyte(c: char, rest: string)
    requires c as int >= 0x80
    ensures DecodeUriComponent(EncodeChar(c) + rest) == Cons(c, DecodeUriComponent(rest))
  {
    var bs := EncodeScalar(c as int);
    var tail := EscapeBytes(bs[1..]) + rest;
    var s := EncodeChar(c) + rest;
    assert s == EscapeByte(bs[0]) + tail;
    ReadEscapeByte(bs[0], tail);
    assert s[3..] == tail;
    ReadContinuationEscapes(bs[1..], rest);
    assert [bs[0]] + bs[1..] == bs;
    DecodeEncodeScalar(c as int);
    assert s[3 * |bs|..] == rest;
  }

  /** Decoding one encoded character and then the rest. */
  lemma DecodeEncodeChar(c: char, rest: string)
    ensures DecodeUriComponent(EncodeChar(c) + rest) == Cons(c, DecodeUriComponent(rest))
  {
    if IsUnreserved(c) {
      var s := EncodeChar(c) + rest;
      assert s[0] == c && s[1..] == rest;
    } else if c as int < 0x80 {
      DecodeEscapedAscii(c, rest);
    } else {
      DecodeEscapedMultibyte(c, rest);
    }
  }

  /** decodeURIComponent undoes encodeURIComponent on every string. */
  lemma {:induction false} DecodeEncode(s: string)
    ensures DecodeUriComponent(EncodeUriComponent(s)) == Some(s)
  {
    if s != [] {
      DecodeEncode(s[1..]);
      DecodeEncodeChar(s[0], EncodeUriComponent(s[1..]));
      assert [s[0]] + s[1..] == s;
    }
  }

  /** Different strings have different encodings. */
  lemma EncodeInjective(s: string, t: string)
    requires EncodeUriComponent(s) == EncodeUriComponent(t)
    ensures s == t
  {
    DecodeEncode(s);
    DecodeEncode(t);
  }

  /** A string of unreserved characters encodes to itself. */
  lemma {:induction false} EncodeUnreserved(s: string)
    requires forall i :: 0 <= i < |s| ==> IsUnreserved(s[i])
    ensures EncodeUriComponent(s) == s
  {
    if s != [] {
      EncodeUnreserved(s[1..]);
      assert [s[0]] + s[1..] == s;
    }
  }

  lemma EncodedCharIsAscii(c: char)
    requires IsEncodedChar(c)
    ensures c as int < 0x80 && !IsLineTerminator(c)
  {
  }

  /** An encoded component is ASCII, so its UTF-8 size is its length, and it
      holds no line terminator. */
  lemma EncodedIsAscii(s: string)
    ensures IsAscii(EncodeUriComponent(s))
    ensures NoLineTerminator(EncodeUriComponent(s))
    ensures |Utf8.Encode(EncodeUriComponent(s))| == |EncodeUriComponent(s)|
  {
    var r := EncodeUriComponent(s);
    EncodedChars(s);
    forall i | 0 <= i < |r| ensures r[i] as int < 0x80 && !IsLineTerminator(r[i]) {
      EncodedCharIsAscii(r[i]);
    }
    AsciiLength(r);
  }
}
