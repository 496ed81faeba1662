/** UTF-8 (section 3 of RFC 3629): the bytes Rust's `str::as_bytes` gives
    for a string, and a decoder that rejects what is not UTF-8. */
module Utf8 {

  import opened Wrappers
  import opened Bytes

  /** A Unicode scalar value: a code point that is not a surrogate. */
  predicate IsScalar(n: int) {
    0 <= n < 0xD800 || 0xE000 <= n < 0x110000
  }

  /** The one to four bytes of one character. */
  function EncodeChar(c: char): (r: seq<byte>)
    ensures 1 <= |r| <= 4
  {
    var n := c as int;
    if n < 0x80 then [n]
    else if n < 0x800 then [0xC0 + n / 64, 0x80 + n % 64]
    else if n < 0x10000 then [0xE0 + n / 4096, 0x80 + n / 64 % 64, 0x80 + n % 64]
    else [0xF0 + n / 0x40000, 0x80 + n / 4096 % 64, 0x80 + n / 64 % 64, 0x80 + n % 64]
  }

  /** The UTF-8 bytes of a string. */
  function Encode(s: string): seq<byte>
    decreases |s|
  {
    if |s| == 0 then [] else EncodeChar(s[0]) + Encode(s[1..])
  }

  predicate IsContinuation(b: byte) {
    0x80 <= b < 0xC0
  }

  /** The character at the front of `b` and how many bytes it takes, or
      `None` when the front is not the shortest encoding of a scalar value. */
  function DecodeFirst(b: seq<byte>): (r: Option<(char, nat)>)
    requires |b| > 0
    ensures r.Some? ==> 1 <= r.value.1 <= |b|
  {
    var b0: int := b[0];
    if b0 < 0x80 then Some((b0 as char, 1))
    else if 0xC0 <= b0 < 0xE0 && |b| >= 2 && IsContinuation(b[1]) then
      var n := (b0 - 0xC0) * 64 + (b[1] as int - 0x80);
      if 0x80 <= n then Some((n as char, 2)) else None
    else if 0xE0 <= b0 < 0xF0 && |b| >= 3 && IsContinuation(b[1]) && IsContinuation(b[2]) then
      var n := (b0 - 0xE0) * 4096 + (b[1] as int - 0x80) * 64 + (b[2] as int - 0x80);
      if 0x800 <= n && IsScalar(n) then Some((n as char, 3)) else None
    else if 0xF0 <= b0 < 0xF8 && |b| >= 4 && IsContinuation(b[1]) && IsContinuation(b[2]) && IsContinuation(b[3]) then
      var n := (b0 - 0xF0) * 0x40000 + (b[1] as int - 0x80) * 4096 + (b[2] as int - 0x80) * 64 + (b[3] as int - 0x80);
      if 0x10000 <= n < 0x110000 then Some((n as char, 4)) else None
    else None
  }

  /** The string whose UTF-8 encoding `b` is, if there is one. */
  function Decode(b: seq<byte>): Option<string>
    decreases |b|
  {
    if |b| == 0 then Some("")
    else
      match DecodeFirst(b)
      case None => None
      case Some((c, k)) =>
        match Decode(b[k..])
        case None => None
        case Some(t) => Some([c] + t)
  }

  lemma DecodeTwo(c: char, t: seq<byte>)
    requires 0x80 <= c as int < 0x800
    ensures DecodeFirst(EncodeChar(c) + t) == Some((c, 2))
  {
    var n := c as int;
    assert n == (n / 64) * 64 + n % 64;
  }

  lemma DecodeThree(c: char, t: seq<byte>)
    requires 0x800 <= c as int < 0x10000
    ensures DecodeFirst(EncodeChar(c) + t) == Some((c, 3))
  {
    var n := c as int;
    assert n / 64 == (n / 4096) * 64 + n / 64 % 64;
    assert n == (n / 64) * 64 + n % 64;
  }

  lemma DecodeFour(c: char, t: seq<byte>)
    requires 0x10000 <= c as int
    ensures DecodeFirst(EncodeChar(c) + t) == Some((c, 4))
  {
    var n := c as int;
    assert n / 4096 == (n / 0x40000) * 64 + n / 4096 % 64;
    assert n / 64 == (n / 4096) * 64 + n / 64 % 64;
    assert n == (n / 64) * 64 + n % 64;
  }

  lemma DecodeFirstOfEncodeChar(c: char, t: seq<byte>)
    ensures DecodeFirst(EncodeChar(c) + t) == Some((c, |EncodeChar(c)|))
  {
    var n := c as int;
    if n < 0x80 {
    } else if n < 0x800 {
      DecodeTwo(c, t);
    } else if n < 0x10000 {
      DecodeThree(c, t);
    } else {
      DecodeFour(c, t);
    }
  }

  /** Decoding undoes encoding, for every string. */
  lemma {:induction false} EncodeRoundTrip(s: string)
    ensures Decode(Encode(s)) == Some(s)
    decreases |s|
  {
    if |s| > 0 {
      var e, t := EncodeChar(s[0]), Encode(s[1..]);
      EncodeRoundTrip(s[1..]);
      DecodeFirstOfEncodeChar(s[0], t);
      assert (e + t)[|e|..] == t;
      assert Encode(s) == e + t;
      assert [s[0]] + s[1..] == s;
    }
  }

  /** Every character takes at least one byte, and an ASCII character
      exactly one, its code. */
  lemma {:induction false} EncodeLength(s: string)
    ensures |Encode(s)| >= |s|
    ensures (forall i :: 0 <= i < |s| ==> (s[i] as int) < 0x80) ==>
      Encode(s) == seq(|s|, i requires 0 <= i < |s| => s[i] as int as byte)
    decreases |s|
  {
    if |s| > 0 {
      EncodeLength(s[1..]);
    }
  }
}
