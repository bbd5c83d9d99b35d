/** `encodeURIComponent` and `decodeURIComponent` (ECMA-262, section 19.2.6):
    each code point is UTF-8 encoded and every byte outside the unescaped set
    becomes a `%XX` triplet with upper-case hexadecimal digits, the
    percent-encoding of section 2.1 of RFC 3986. */
module PercentEncoding {
  import opened Results
  import opened Utf8

  /** The characters `encodeURIComponent` leaves as they are: ASCII letters,
      digits and `- _ . ! ~ * ' ( )`. */
  predicate IsUnescaped(c: char)
  {
    || ('A' <= c <= 'Z') || ('a' <= c <= 'z') || ('0' <= c <= '9')
    || c == '-' || c == '_' || c == '.' || c == '!' || c == '~'
    || c == '*' || c == '\'' || c == '(' || c == ')'
  }

  const HexDigits: string := "0123456789ABCDEF"

  /** Value of a hexadecimal digit of either case, as `decodeURIComponent` reads it. */
  function HexValue(c: char): (v: Option<nat>)
    ensures v.Some? ==> v.value < 16
  {
    if '0' <= c <= '9' then Some(c as int - '0' as int)
    else if 'A' <= c <= 'F' then Some(c as int - 'A' as int + 10)
    else if 'a' <= c <= 'f' then Some(c as int - 'a' as int + 10)
    else None
  }

  /** One byte of the UTF-8 encoding, as it appears in the output. */
  function EncodeByte(b: Byte): (t: string)
  {
    if b < 0x80 && IsUnescaped(b as char) then [b as char]
    else ['%', HexDigits[b / 16], HexDigits[b % 16]]
  }

  function EncodeBytes(bs: seq<Byte>): (t: string)
  {
    if |bs| == 0 then [] else EncodeByte(bs[0]) + EncodeBytes(bs[1..])
  }

  /** Output made of unescaped characters and `%XX` triplets only. */
  predicate IsEncoded(t: string)
    decreases |t|
  {
    if |t| == 0 then true
    else if IsUnescaped(t[0]) then IsEncoded(t[1..])
    else |t| >= 3 && t[0] == '%' && t[1] in HexDigits && t[2] in HexDigits && IsEncoded(t[3..])
  }

  lemma {:induction false} EncodeBytesIsEncoded(bs: seq<Byte>)
    ensures IsEncoded(EncodeBytes(bs))
  {
    if |bs| > 0 {
      var t := EncodeBytes(bs);
      var head := EncodeByte(bs[0]);
      EncodeBytesIsEncoded(bs[1..]);
      assert t == head + EncodeBytes(bs[1..]);
      if |head| == 1 {
        assert t[1..] == EncodeBytes(bs[1..]);
      } else {
        assert !IsUnescaped('%');
        assert t[3..] == EncodeBytes(bs[1..]);
      }
    }
  }

  /** Only unescaped characters and `%`: in particular none of `&`, `=`, `?`,
      `#` or a space. */
  predicate OnlyUriSafe(t: string)
  {
    forall k :: 0 <= k < |t| ==> IsUnescaped(t[k]) || t[k] == '%'
  }

  lemma OnlyUriSafeConcat(a: string, b: string)
    requires OnlyUriSafe(a) && OnlyUriSafe(b)
    ensures OnlyUriSafe(a + b)
  {
    forall k | 0 <= k < |a + b|
      ensures IsUnescaped((a + b)[k]) || (a + b)[k] == '%'
    {
      if k < |a| { assert (a + b)[k] == a[k]; } else { assert (a + b)[k] == b[k - |a|]; }
    }
  }

  /** One encoded byte is an unescaped character or a `%XX` triplet. */
  lemma EncodeByteUriSafe(b: Byte)
    ensures OnlyUriSafe(EncodeByte(b))
  {
    var t := EncodeByte(b);
    if |t| == 3 {
      assert IsUnescaped(HexDigits[b / 16]) && IsUnescaped(HexDigits[b % 16]);
    }
  }

  /** Encoded output is made of URI-safe characters only. */
  lemma {:induction false} EncodeBytesUriSafe(bs: seq<Byte>)
    ensures OnlyUriSafe(EncodeBytes(bs))
  {
    if |bs| > 0 {
      EncodeByteUriSafe(bs[0]);
      EncodeBytesUriSafe(bs[1..]);
      OnlyUriSafeConcat(EncodeByte(bs[0]), EncodeBytes(bs[1..]));
    }
  }

  /** `encodeURIComponent` over the whole of Unicode (scalar values). */
  function EncodeComponent(s: string): (t: string)
    ensures IsEncoded(t)
    ensures OnlyUriSafe(t)
  {
    var t := EncodeBytes(Utf8.Encode(s));
    EncodeBytesIsEncoded(Utf8.Encode(s));
    EncodeBytesUriSafe(Utf8.Encode(s));
    t
  }

  lemma {:induction false} EncodeBytesConcat(a: seq<Byte>, b: seq<Byte>)
    ensures EncodeBytes(a + b) == EncodeBytes(a) + EncodeBytes(b)
  {
    if |a| == 0 {
      assert a + b == b;
    } else {
      assert (a + b)[1..] == a[1..] + b;
      EncodeBytesConcat(a[1..], b);
    }
  }

  /** `encodeURIComponent` encodes a string piece by piece: the output for a
      concatenation is the concatenation of the outputs. */
  lemma EncodeComponentConcat(a: string, b: string)
    ensures EncodeComponent(a + b) == EncodeComponent(a) + EncodeComponent(b)
  {
    Utf8.EncodeConcat(a, b);
    EncodeBytesConcat(Utf8.Encode(a), Utf8.Encode(b));
  }

  /** The `%XX` triplet of every byte, with no byte left as it is. */
  function Triplets(bs: seq<Byte>): (t: string)
  {
    if |bs| == 0 then [] else ['%', HexDigits[bs[0] / 16], HexDigits[bs[0] % 16]] + Triplets(bs[1..])
  }

  /** Bytes that are not the code of an unescaped ASCII character all become triplets. */
  lemma {:induction false} EncodeEscapedBytes(bs: seq<Byte>)
    requires forall k :: 0 <= k < |bs| ==> !(bs[k] < 0x80 && IsUnescaped(bs[k] as char))
    ensures EncodeBytes(bs) == Triplets(bs)
  {
    if |bs| > 0 {
      EncodeEscapedBytes(bs[1..]);
    }
  }

  /** What `encodeURIComponent` does with one character: an unescaped
      character stands for itself, and any other character becomes the `%XX`
      triplets of its UTF-8 bytes. */
  lemma EncodeOneChar(c: char)
    ensures IsUnescaped(c) ==> EncodeComponent([c]) == [c]
    ensures !IsUnescaped(c) ==> EncodeComponent([c]) == Triplets(Utf8.EncodeChar(c))
  {
    var e := Utf8.EncodeChar(c);
    assert Utf8.Encode([c]) == e + Utf8.Encode([]);
    assert Utf8.Encode([c]) == e;
    if !IsUnescaped(c) {
      if (c as int) < 0x80 {
        assert (e[0] as char) == c;
      }
      EncodeEscapedBytes(e);
    } else {
      assert (c as int) < 0x80 && (e[0] as char) == c;
      assert EncodeBytes(e) == EncodeByte(e[0]) + EncodeBytes(e[1..]);
    }
  }

  /** Percent-decoding into bytes: a `%` must start a triplet of two hex
      digits; other characters must be ASCII and stand for themselves. */
  function DecodeBytes(t: string): Option<seq<Byte>>
    decreases |t|
  {
    if |t| == 0 then Some([])
    else if t[0] == '%' then
      if |t| < 3 || HexValue(t[1]).None? || HexValue(t[2]).None? then None
      else
        var b := HexValue(t[1]).value * 16 + HexValue(t[2]).value;
        match DecodeBytes(t[3..])
        case None => None
        case Some(rest) => Some([b] + rest)
    else if (t[0] as int) < 0x80 then
      match DecodeBytes(t[1..])
      case None => None
      case Some(rest) => Some([t[0] as int] + rest)
    else None
  }

  /** `decodeURIComponent` for ASCII input: percent-decode, then UTF-8 decode. */
  function DecodeComponent(t: string): Option<string>
  {
    match DecodeBytes(t)
    case None => None
    case Some(bs) => Utf8.Decode(bs)
  }

  lemma HexDigitValue(d: nat)
    requires d < 16
    ensures HexValue(HexDigits[d]) == Some(d)
  {
  }

  lemma DecodeEncodedByte(b: Byte, rest: string)
    ensures DecodeBytes(EncodeByte(b) + rest) == match DecodeBytes(rest)
                                                  case None => None
                                                  case Some(bs) => Some([b] + bs)
  {
    var t := EncodeByte(b) + rest;
    if |EncodeByte(b)| == 1 {
      assert t[1..] == rest;
    } else {
      HexDigitValue(b / 16);
      HexDigitValue(b % 16);
      assert t[3..] == rest;
    }
  }

  /** Percent-decoding inverts percent-encoding on every byte sequence. */
  lemma {:induction false} DecodeEncodeBytes(bs: seq<Byte>)
    ensures DecodeBytes(EncodeBytes(bs)) == Some(bs)
  {
    if |bs| > 0 {
      DecodeEncodeBytes(bs[1..]);
      DecodeEncodedByte(bs[0], EncodeBytes(bs[1..]));
      assert bs == [bs[0]] + bs[1..];
    }
  }

  /** `decodeURIComponent(encodeURIComponent(s)) == s` for every string. */
  lemma DecodeEncodeComponent(s: string)
    ensures DecodeComponent(EncodeComponent(s)) == Some(s)
  {
    DecodeEncodeBytes(Utf8.Encode(s));
    DecodeEncode(s);
  }
}
