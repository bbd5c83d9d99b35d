/** UTF-8, the byte encoding `encodeURIComponent` applies to each code point
    before percent-escaping it (RFC 3629, section 3), and its inverse. */
module Utf8 {
  import opened Results

  type Byte = b: int | 0 <= b < 256

  /** A byte of the form 10xxxxxx, continuing a multi-byte sequence. */
  predicate IsContinuation(b: Byte)
  {
    0x80 <= b < 0xC0
  }

  /** The one to four bytes that encode the code point of `c`. Dafny's `char`
      is a Unicode scalar value, so no lone surrogate can reach the encoder. */
  function EncodeChar(c: char): (bs: seq<Byte>)
    ensures 1 <= |bs| <= 4
    ensures (|bs| == 1) == ((c as int) < 0x80)
    ensures (c as int) < 0x80 ==> bs[0] == c as int
    ensures (c as int) >= 0x80 ==> bs[0] >= 0xC0
    ensures forall k :: 1 <= k < |bs| ==> IsContinuation(bs[k])
  {
    var cp := c as int;
    var q1 := cp / 64;
    var q2 := q1 / 64;
    var q3 := q2 / 64;
    if cp < 0x80 then [cp]
    else if cp < 0x800 then [0xC0 + q1, 0x80 + cp % 64]
    else if cp < 0x1_0000 then [0xE0 + q2, 0x80 + q1 % 64, 0x80 + cp % 64]
    else [0xF0 + q3, 0x80 + q2 % 64, 0x80 + q1 % 64, 0x80 + cp % 64]
  }

  /** UTF-8 encoding of a string. */
  function Encode(s: string): (bs: seq<Byte>)
    ensures |bs| >= |s|
  {
    if |s| == 0 then [] else EncodeChar(s[0]) + Encode(s[1..])
  }

  /** Encoding works character by character. */
  lemma {:induction false} EncodeConcat(a: string, b: string)
    ensures Encode(a + b) == Encode(a) + Encode(b)
  {
    if |a| == 0 {
      assert a + b == b;
    } else {
      assert (a + b)[1..] == a[1..] + b;
      EncodeConcat(a[1..], b);
    }
  }

  /** The code point from a lead byte's payload and the payloads of its
      continuation bytes, most significant first. */
  function Assemble(lead: nat, tail: seq<Byte>): nat
    requires forall k :: 0 <= k < |tail| ==> IsContinuation(tail[k])
    decreases |tail|
  {
    if |tail| == 0 then lead
    else
      assert IsContinuation(tail[0]);
      Assemble(lead * 64 + (tail[0] as int - 0x80), tail[1..])
  }

  /** A code point that may be turned into a `char`: not a surrogate, at most U+10FFFF. */
  predicate IsScalarValue(cp: nat)
  {
    cp < 0xD800 || 0xE000 <= cp < 0x11_0000
  }

  /** Number of bytes announced by a lead byte, or 0 for a byte that cannot
      start a sequence. */
  function SequenceLength(b: Byte): nat
  {
    if b < 0x80 then 1
    else if b < 0xC0 then 0
    else if b < 0xE0 then 2
    else if b < 0xF0 then 3
    else if b < 0xF8 then 4
    else 0
  }

  /** Payload bits of a lead byte announcing `n` bytes. */
  function LeadPayload(b: Byte, n: nat): nat
    requires n == SequenceLength(b) && n > 0
  {
    if n == 1 then b as int else if n == 2 then b as int - 0xC0
    else if n == 3 then b as int - 0xE0 else b as int - 0xF0
  }

  /** The smallest code point that needs `n` bytes; anything below it is an
      overlong form, which a conforming decoder refuses. */
  function MinCodePoint(n: nat): nat
  {
    if n <= 1 then 0 else if n == 2 then 0x80 else if n == 3 then 0x800 else 0x1_0000
  }

  /** Decodes the character at the front of `bs`, with the number of bytes it
      used; `None` for a malformed, overlong, surrogate or out-of-range sequence. */
  function DecodeFirst(bs: seq<Byte>): (r: Option<(char, nat)>)
    requires |bs| > 0
    ensures r.Some? ==> 1 <= r.value.1 <= |bs|
  {
    var n := SequenceLength(bs[0]);
    if n == 0 || |bs| < n then None
    else if exists k :: 1 <= k < n && !IsContinuation(bs[k]) then None
    else
      var cp := Assemble(LeadPayload(bs[0], n), bs[1..n]);
      if cp < MinCodePoint(n) || !IsScalarValue(cp) then None
      else Some((cp as char, n))
  }

  /** UTF-8 decoding of a byte sequence, or `None` if it is not well formed. */
  function Decode(bs: seq<Byte>): Option<string>
    decreases |bs|
  {
    if |bs| == 0 then Some([])
    else match DecodeFirst(bs)
      case None => None
      case Some((c, n)) =>
        match Decode(bs[n..])
        case None => None
        case Some(rest) => Some([c] + rest)
  }

  /** A well-formed sequence of `n` bytes at the front of `bs` decodes to the
      code point its payloads assemble to. */
  lemma DecodeWellFormed(bs: seq<Byte>, n: nat, cp: nat)
    requires 0 < n <= |bs| && SequenceLength(bs[0]) == n
    requires forall k :: 1 <= k < n ==> IsContinuation(bs[k])
    requires Assemble(LeadPayload(bs[0], n), bs[1..n]) == cp
    requires MinCodePoint(n) <= cp && IsScalarValue(cp)
    ensures DecodeFirst(bs) == Some((cp as char, n))
  {
  }

  /** The payloads of a three-byte encoding assemble to its code point. */
  lemma AssembleThree(cp: nat)
    requires 0x800 <= cp < 0x1_0000
    ensures Assemble(cp / 64 / 64, [0x80 + cp / 64 % 64, 0x80 + cp % 64]) == cp
  {
    var q1 := cp / 64;
    var q2 := q1 / 64;
    var t := [0x80 + q1 % 64, 0x80 + cp % 64];
    assert Assemble(q2, t) == Assemble(q2 * 64 + q1 % 64, t[1..]);
    assert q2 * 64 + q1 % 64 == q1;
    assert t[1..] == [0x80 + cp % 64];
    AssembleLast(q1, cp);
  }

  /** The last continuation byte carries the low six bits of the code point. */
  lemma AssembleLast(q1: nat, cp: nat)
    requires q1 == cp / 64
    ensures Assemble(q1, [0x80 + cp % 64]) == cp
  {
    assert Assemble(q1, [0x80 + cp % 64]) == Assemble(q1 * 64 + cp % 64, []);
  }

  /** The payloads of a four-byte encoding assemble to its code point. */
  lemma AssembleFour(cp: nat)
    requires 0x1_0000 <= cp < 0x11_0000
    ensures Assemble(cp / 64 / 64 / 64, [0x80 + cp / 64 / 64 % 64, 0x80 + cp / 64 % 64, 0x80 + cp % 64]) == cp
  {
    var q1 := cp / 64;
    var q2 := q1 / 64;
    var q3 := q2 / 64;
    var t := [0x80 + q2 % 64, 0x80 + q1 % 64, 0x80 + cp % 64];
    assert Assemble(q3, t) == Assemble(q3 * 64 + q2 % 64, t[1..]);
    assert q3 * 64 + q2 % 64 == q2;
    assert t[1..] == [0x80 + q1 % 64, 0x80 + cp % 64];
    assert Assemble(q2, t[1..]) == Assemble(q2 * 64 + q1 % 64, [0x80 + cp % 64]);
    assert q2 * 64 + q1 % 64 == q1;
    AssembleLast(q1, cp);
  }

  /** Decoding the bytes of one character, whatever follows them, gives that character back. */
  lemma DecodeEncodedChar(c: char, rest: seq<Byte>)
    ensures DecodeFirst(EncodeChar(c) + rest) == Some((c, |EncodeChar(c)|))
  {
    var e := EncodeChar(c);
    var bs := e + rest;
    var n := |e|;
    var cp := c as int;
    assert bs[..n] == e;
    assert bs[1..n] == e[1..];
    if cp < 0x80 {
    } else if cp < 0x800 {
      AssembleLast(cp / 64, cp);
    } else if cp < 0x1_0000 {
      AssembleThree(cp);
    } else {
      AssembleFour(cp);
    }
    DecodeWellFormed(bs, n, cp);
  }

  /** UTF-8 decoding inverts UTF-8 encoding on every string. */
  lemma {:induction false} DecodeEncode(s: string)
    ensures Decode(Encode(s)) == Some(s)
  {
    if |s| > 0 {
      var head := EncodeChar(s[0]);
      var bs := Encode(s);
      assert bs == head + Encode(s[1..]);
      DecodeEncodedChar(s[0], Encode(s[1..]));
      assert bs[|head|..] == Encode(s[1..]);
      DecodeEncode(s[1..]);
      assert s == [s[0]] + s[1..];
    }
  }
}
