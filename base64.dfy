/** Standard base64 (section 4 of RFC 4648): the 64-character alphabet
    `A-Z a-z 0-9 + /` and `=` padding. Both hash-formatting drafts encode a
    48-byte digest with it; this module gives the encoder, a decoder that
    undoes it, and the padding facts the drafts' `=`-stripping depends on. */
module Base64 {

  import opened Wrappers
  import opened Text
  import opened Bytes

  /** A SHA3-384 / SHA-384 digest: always 48 bytes. */
  type Digest = d: seq<byte> | |d| == 48 witness seq(48, _ => 0)

  /** The character for a 6-bit value (table 1 of RFC 4648). */
  function CharOf(v: nat): (c: char)
    requires v < 64
    ensures c != '=' && c != '"' && c != '\\'
    ensures 0x20 <= c as int <= 0x7E
  {
    if v < 26 then ('A' as int + v) as char
    else if v < 52 then ('a' as int + v - 26) as char
    else if v < 62 then ('0' as int + v - 52) as char
    else if v == 62 then '+'
    else '/'
  }

  predicate InAlphabet(c: char) {
    'A' <= c <= 'Z' || 'a' <= c <= 'z' || '0' <= c <= '9' || c == '+' || c == '/'
  }

  /** The 6-bit value of an alphabet character. */
  function ValueOf(c: char): (v: nat)
    requires InAlphabet(c)
    ensures v < 64
  {
    if 'A' <= c <= 'Z' then c as int - 'A' as int
    else if 'a' <= c <= 'z' then c as int - 'a' as int + 26
    else if '0' <= c <= '9' then c as int - '0' as int + 52
    else if c == '+' then 62
    else 63
  }

  lemma ValueOfCharOf(v: nat)
    requires v < 64
    ensures InAlphabet(CharOf(v)) && ValueOf(CharOf(v)) == v
  {
  }

  /** Three bytes become four characters. */
  function EncodeGroup(b0: byte, b1: byte, b2: byte): string {
    [CharOf(b0 / 4), CharOf((b0 % 4) * 16 + b1 / 16), CharOf((b1 % 16) * 4 + b2 / 64), CharOf(b2 % 64)]
  }

  /** Standard base64 with padding. Every 3 input bytes give 4 characters;
      a final group of 1 or 2 bytes is padded with `==` or `=`. */
  function Encode(b: seq<byte>): (r: string)
    ensures |b| > 0 <==> |r| >= 4
    decreases |b|
  {
    if |b| == 0 then ""
    else if |b| == 1 then [CharOf(b[0] / 4), CharOf((b[0] % 4) * 16), '=', '=']
    else if |b| == 2 then [CharOf(b[0] / 4), CharOf((b[0] % 4) * 16 + b[1] / 16), CharOf((b[1] % 16) * 4), '=']
    else EncodeGroup(b[0], b[1], b[2]) + Encode(b[3..])
  }

  /** Dropping a full group keeps the remainder and takes one group off. */
  lemma DropGroup(n: nat)
    requires n >= 3
    ensures (n - 3) % 3 == n % 3
    ensures (n + 2) / 3 == (n - 3 + 2) / 3 + 1
  {
  }

  /** `n` bytes give `4·⌈n/3⌉` characters. */
  lemma {:induction false} EncodeLength(b: seq<byte>)
    ensures |Encode(b)| == 4 * ((|b| + 2) / 3)
    decreases |b|
  {
    if |b| >= 3 {
      EncodeLength(b[3..]);
      EncodeUnfold(b);
      DropGroup(|b|);
    }
  }

  /** Decoding of one group of four characters; padding is accepted only
      in the last group. */
  function DecodeQuad(q: string, last: bool): Option<seq<byte>>
    requires |q| == 4
  {
    if !InAlphabet(q[0]) || !InAlphabet(q[1]) then None
    else
      var v0, v1 := ValueOf(q[0]), ValueOf(q[1]);
      if last && q[2] == '=' && q[3] == '=' then Some([v0 * 4 + v1 / 16])
      else if !InAlphabet(q[2]) then None
      else
        var v2 := ValueOf(q[2]);
        if last && q[3] == '=' then Some([v0 * 4 + v1 / 16, (v1 % 16) * 16 + v2 / 4])
        else if !InAlphabet(q[3]) then None
        else Some([v0 * 4 + v1 / 16, (v1 % 16) * 16 + v2 / 4, (v2 % 4) * 64 + ValueOf(q[3])])
  }

  /** Decoding of padded base64; `None` on text that is not base64. */
  function Decode(s: string): Option<seq<byte>>
    decreases |s|
  {
    if |s| == 0 then Some([])
    else if |s| < 4 then None
    else
      match (DecodeQuad(s[..4], |s| == 4), Decode(s[4..]))
      case (Some(x), Some(y)) => Some(x + y)
      case _ => None
  }

  /** The first byte comes back from the top six bits and the next two. */
  lemma FirstByte(b0: byte, b1: byte)
    ensures (b0 / 4) * 4 + ((b0 % 4) * 16 + b1 / 16) / 16 == b0
  {
    assert ((b0 % 4) * 16 + b1 / 16) / 16 == b0 % 4;
  }

  lemma SecondByte(b0: byte, b1: byte, b2: byte)
    ensures (((b0 % 4) * 16 + b1 / 16) % 16) * 16 + ((b1 % 16) * 4 + b2 / 64) / 4 == b1
  {
    assert ((b0 % 4) * 16 + b1 / 16) % 16 == b1 / 16;
    assert ((b1 % 16) * 4 + b2 / 64) / 4 == b1 % 16;
  }

  lemma ThirdByte(b1: byte, b2: byte)
    ensures (((b1 % 16) * 4 + b2 / 64) % 4) * 64 + b2 % 64 == b2
  {
    assert ((b1 % 16) * 4 + b2 / 64) % 4 == b2 / 64;
  }

  lemma GroupRoundTrip(b0: byte, b1: byte, b2: byte, last: bool)
    ensures DecodeQuad(EncodeGroup(b0, b1, b2), last) == Some([b0, b1, b2])
  {
    var v0, v1, v2, v3 := b0 / 4, (b0 % 4) * 16 + b1 / 16, (b1 % 16) * 4 + b2 / 64, b2 % 64;
    ValueOfCharOf(v0); ValueOfCharOf(v1); ValueOfCharOf(v2); ValueOfCharOf(v3);
    FirstByte(b0, b1);
    SecondByte(b0, b1, b2);
    ThirdByte(b1, b2);
  }

  lemma OneByteRoundTrip(b0: byte)
    ensures Decode(Encode([b0])) == Some([b0])
  {
    var s := Encode([b0]);
    var v0, v1 := b0 / 4, (b0 % 4) * 16;
    ValueOfCharOf(v0); ValueOfCharOf(v1);
    var d: seq<byte> := [v0 * 4 + v1 / 16];
    assert d == [b0];
    assert s[..4] == s && s[4..] == [];
    assert d + [] == d;
  }

  lemma TwoBytesRoundTrip(b0: byte, b1: byte)
    ensures Decode(Encode([b0, b1])) == Some([b0, b1])
  {
    var s := Encode([b0, b1]);
    var v0, v1, v2 := b0 / 4, (b0 % 4) * 16 + b1 / 16, (b1 % 16) * 4;
    ValueOfCharOf(v0); ValueOfCharOf(v1); ValueOfCharOf(v2);
    var d: seq<byte> := [v0 * 4 + v1 / 16, (v1 % 16) * 16 + v2 / 4];
    assert d == [b0, b1];
    assert s[..4] == s && s[4..] == [];
    assert d + [] == d;
  }

  lemma EncodeUnfold(b: seq<byte>)
    requires |b| >= 3
    ensures Encode(b) == EncodeGroup(b[0], b[1], b[2]) + Encode(b[3..])
  {
  }

  /** A group of four followed by more text decodes group by group. */
  lemma DecodeSplit(g: string, t: string)
    requires |g| == 4
    requires DecodeQuad(g, |t| == 0).Some? && Decode(t).Some?
    ensures Decode(g + t) == Some(DecodeQuad(g, |t| == 0).value + Decode(t).value)
  {
    var s := g + t;
    assert s[..4] == g && s[4..] == t;
  }

  /** A full group in front of decodable text decodes to its three bytes
      in front of what the text decodes to. */
  lemma GroupThenRest(b0: byte, b1: byte, b2: byte, t: string, rest: seq<byte>)
    requires Decode(t) == Some(rest)
    ensures Decode(EncodeGroup(b0, b1, b2) + t) == Some([b0, b1, b2] + rest)
  {
    var g := EncodeGroup(b0, b1, b2);
    assert DecodeQuad(g, |t| == 0) == Some([b0, b1, b2]) by {
      GroupRoundTrip(b0, b1, b2, |t| == 0);
    }
    DecodeSplit(g, t);
  }

  /** Decoding undoes encoding, for every byte string. */
  lemma {:induction false} EncodeRoundTrip(b: seq<byte>)
    ensures Decode(Encode(b)) == Some(b)
    decreases |b|
  {
    if |b| == 1 {
      OneByteRoundTrip(b[0]);
      assert b == [b[0]];
    } else if |b| == 2 {
      TwoBytesRoundTrip(b[0], b[1]);
      assert b == [b[0], b[1]];
    } else if |b| >= 3 {
      EncodeRoundTrip(b[3..]);
      assert Decode(Encode(b)) == Some([b[0], b[1], b[2]] + b[3..]) by {
        EncodeUnfold(b);
        GroupThenRest(b[0], b[1], b[2], Encode(b[3..]), b[3..]);
      }
      assert [b[0], b[1], b[2]] + b[3..] == b;
    }
  }

  lemma InConcat(c: char, x: string, y: string)
    ensures c in x + y <==> c in x || c in y
  {
    if c in x + y {
      var i :| 0 <= i < |x + y| && (x + y)[i] == c;
      if i >= |x| { assert y[i - |x|] == c; }
    }
    if c in y {
      var i :| 0 <= i < |y| && y[i] == c;
      assert (x + y)[|x| + i] == c;
    }
  }

  lemma LastOfConcat(x: string, y: string)
    requires |y| > 0
    ensures (x + y)[|x + y| - 1] == y[|y| - 1]
  {
  }

  /** The encoding holds a `=` exactly when the input length is not a
      multiple of 3. */
  lemma {:induction false} PaddingIff(b: seq<byte>)
    ensures '=' in Encode(b) <==> |b| % 3 != 0
    decreases |b|
  {
    if |b| >= 3 {
      var t := Encode(b[3..]);
      PaddingIff(b[3..]);
      assert '=' in Encode(b) <==> '=' in t by {
        var g := EncodeGroup(b[0], b[1], b[2]);
        EncodeUnfold(b);
        InConcat('=', g, t);
      }
      DropGroup(|b|);
    } else if |b| > 0 {
      assert Encode(b)[3] == '=';
    }
  }

  /** ... and then, and only then, the text ends with `=`. */
  lemma {:induction false} PaddingAtEnd(b: seq<byte>)
    ensures |b| > 0 ==> (Encode(b)[|Encode(b)| - 1] == '=' <==> |b| % 3 != 0)
    decreases |b|
  {
    if |b| > 3 {
      var t := Encode(b[3..]);
      PaddingAtEnd(b[3..]);
      assert Encode(b)[|Encode(b)| - 1] == t[|t| - 1] by {
        EncodeUnfold(b);
        LastOfConcat(EncodeGroup(b[0], b[1], b[2]), t);
      }
      DropGroup(|b|);
    } else if |b| == 3 {
      assert Encode(b) == EncodeGroup(b[0], b[1], b[2]) by {
        EncodeUnfold(b);
        assert Encode(b[3..]) == [];
        assert EncodeGroup(b[0], b[1], b[2]) + [] == EncodeGroup(b[0], b[1], b[2]);
      }
    }
  }

  /** A 48-byte digest encodes to exactly 64 characters and carries no
      padding at all, so neither stripping one `=` nor stripping every `=`
      changes it. */
  lemma DigestHasNoPadding(d: Digest)
    ensures |Encode(d)| == 64
    ensures '=' !in Encode(d)
    ensures StripSuffix(Encode(d), "=") == None
    ensures Strip(Encode(d), '=') == Encode(d)
  {
    var s := Encode(d);
    assert |s| == 64 by {
      EncodeLength(d);
    }
    assert '=' !in s by {
      PaddingIff(d);
    }
    assert !EndsWith(s, "=") by {
      assert s[63..] == [s[63]];
    }
    StripShape(s, '=');
  }

  /** Every character of an encoding lies in the alphabet or is `=`. */
  lemma {:induction false} EncodeChars(b: seq<byte>)
    ensures forall i :: 0 <= i < |Encode(b)| ==> InAlphabet(Encode(b)[i]) || Encode(b)[i] == '='
    ensures forall i :: 0 <= i < |Encode(b)| ==> 0x20 <= Encode(b)[i] as int <= 0x7E && Encode(b)[i] != '"' && Encode(b)[i] != '\\'
    decreases |b|
  {
    if |b| >= 3 {
      EncodeChars(b[3..]);
      var g := EncodeGroup(b[0], b[1], b[2]);
      ValueOfCharOf(b[0] / 4); ValueOfCharOf((b[0] % 4) * 16 + b[1] / 16);
      ValueOfCharOf((b[1] % 16) * 4 + b[2] / 64); ValueOfCharOf(b[2] % 64);
      assert Encode(b) == g + Encode(b[3..]);
    } else if |b| == 2 {
      ValueOfCharOf(b[0] / 4); ValueOfCharOf((b[0] % 4) * 16 + b[1] / 16); ValueOfCharOf((b[1] % 16) * 4);
    } else if |b| == 1 {
      ValueOfCharOf(b[0] / 4); ValueOfCharOf((b[0] % 4) * 16);
    }
  }
}
