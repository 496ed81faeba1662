/** JSON string literals (section 7 of RFC 8259) as Python's `json.dumps`
    writes them with its default `ensure_ascii=True`: `"` and `\` are
    escaped, the five named control characters use their short escapes,
    every other character outside printable ASCII becomes `\uXXXX` with
    lower-case hex digits, and characters above U+FFFF become a UTF-16
    surrogate pair of such escapes. The module also gives the decoder of
    section 7 and a reader for records of the form
    `prefix "key" middle "value" suffix`. */
module JsonString {

  import opened Wrappers

  function HexDigit(d: nat): (c: char)
    requires d < 16
    ensures c != '"' && c != '\\'
  {
    if d < 10 then ('0' as int + d) as char else ('a' as int + d - 10) as char
  }

  function HexValue(c: char): Option<nat> {
    if '0' <= c <= '9' then Some(c as int - '0' as int)
    else if 'a' <= c <= 'f' then Some(c as int - 'a' as int + 10)
    else if 'A' <= c <= 'F' then Some(c as int - 'A' as int + 10)
    else None
  }

  /** Four lower-case hex digits, most significant first. */
  function Hex4(n: nat): (r: string)
    requires n < 0x10000
    ensures |r| == 4
  {
    [HexDigit(n / 4096), HexDigit(n / 256 % 16), HexDigit(n / 16 % 16), HexDigit(n % 16)]
  }

  function ParseHex4(s: string): Option<nat>
    requires |s| == 4
  {
    match (HexValue(s[0]), HexValue(s[1]), HexValue(s[2]), HexValue(s[3]))
    case (Some(a), Some(b), Some(c), Some(d)) => Some(a * 4096 + b * 256 + c * 16 + d)
    case _ => None
  }

  lemma HexDigitValue(d: nat)
    requires d < 16
    ensures HexValue(HexDigit(d)) == Some(d)
  {
  }

  lemma Hex4RoundTrip(n: nat)
    requires n < 0x10000
    ensures ParseHex4(Hex4(n)) == Some(n)
  {
    HexDigitValue(n / 4096);
    HexDigitValue(n / 256 % 16);
    HexDigitValue(n / 16 % 16);
    HexDigitValue(n % 16);
    assert n / 256 == (n / 4096) * 16 + n / 256 % 16;
    assert n / 16 == (n / 256) * 16 + n / 16 % 16;
    assert n == (n / 16) * 16 + n % 16;
  }

  function UnicodeEscape(n: nat): (r: string)
    requires n < 0x10000
    ensures |r| == 6
  {
    "\\u" + Hex4(n)
  }

  /** Printable ASCII other than `"` and `\`: written as it is. */
  predicate Plain(c: char) {
    0x20 <= c as int <= 0x7E && c != '"' && c != '\\'
  }

  /** `json.dumps` (with `ensure_ascii=True`) escaping of one character. */
  function EscapeChar(c: char): string {
    var n := c as int;
    if Plain(c) then [c]
    else if c == '"' then "\\\""
    else if c == '\\' then "\\\\"
    else if n == 8 then "\\b"
    else if n == 12 then "\\f"
    else if n == 10 then "\\n"
    else if n == 13 then "\\r"
    else if n == 9 then "\\t"
    else if n < 0x10000 then UnicodeEscape(n)
    else UnicodeEscape(0xD800 + (n - 0x10000) / 0x400) + UnicodeEscape(0xDC00 + (n - 0x10000) % 0x400)
  }

  /** The body of a JSON string literal for `s`, without the quotes. */
  function Escape(s: string): string
    decreases |s|
  {
    if |s| == 0 then "" else EscapeChar(s[0]) + Escape(s[1..])
  }

  /** A JSON string literal: `s` escaped and put between quotes. */
  function Quote(s: string): string {
    "\"" + Escape(s) + "\""
  }

  function Prepend(c: char, r: Option<string>): Option<string> {
    match r
    case None => None
    case Some(t) => Some([c] + t)
  }

  /** The character a two-character escape `\x` stands for. */
  function ShortEscape(x: char): Option<char> {
    if x == '"' then Some('"')
    else if x == '\\' then Some('\\')
    else if x == '/' then Some('/')
    else if x == 'b' then Some(8 as char)
    else if x == 'f' then Some(12 as char)
    else if x == 'n' then Some('\n')
    else if x == 'r' then Some('\r')
    else if x == 't' then Some('\t')
    else None
  }

  /** Decoding of a string literal's body (section 7 of RFC 8259): `None`
      for a bare `"` or control character, an unknown escape, bad hex, or
      a surrogate escape that is not half of a well-formed pair. */
  function Unescape(s: string): Option<string>
    decreases |s|
  {
    if |s| == 0 then Some("")
    else if s[0] == '"' || (s[0] as int) < 0x20 then None
    else if s[0] != '\\' then Prepend(s[0], Unescape(s[1..]))
    else if |s| < 2 then None
    else if ShortEscape(s[1]).Some? then Prepend(ShortEscape(s[1]).value, Unescape(s[2..]))
    else if s[1] != 'u' || |s| < 6 then None
    else
      match ParseHex4(s[2..6])
      case None => None
      case Some(v) =>
        if 0xDC00 <= v < 0xE000 then None
        else if v < 0xD800 || 0xE000 <= v then Prepend(v as char, Unescape(s[6..]))
        else if |s| < 12 || s[6] != '\\' || s[7] != 'u' then None
        else
          match ParseHex4(s[8..12])
          case None => None
          case Some(w) =>
            if 0xDC00 <= w < 0xE000 then
              Prepend((0x10000 + (v - 0xD800) * 0x400 + (w - 0xDC00)) as char, Unescape(s[12..]))
            else None
  }

  lemma UnescapeShort(x: char, t: string)
    requires ShortEscape(x).Some?
    ensures Unescape(['\\', x] + t) == Prepend(ShortEscape(x).value, Unescape(t))
  {
    assert (['\\', x] + t)[2..] == t;
  }

  lemma UnescapeBmp(n: nat, t: string)
    requires n < 0xD800 || 0xE000 <= n < 0x10000
    ensures Unescape(UnicodeEscape(n) + t) == Prepend(n as char, Unescape(t))
  {
    var s := UnicodeEscape(n) + t;
    Hex4RoundTrip(n);
    assert s[2..6] == Hex4(n);
    assert s[6..] == t;
  }

  lemma UnescapePair(hi: nat, lo: nat, t: string)
    requires 0xD800 <= hi < 0xDC00 && 0xDC00 <= lo < 0xE000
    requires 0x10000 + (hi - 0xD800) * 0x400 + (lo - 0xDC00) < 0x110000
    ensures Unescape(UnicodeEscape(hi) + UnicodeEscape(lo) + t) ==
      Prepend((0x10000 + (hi - 0xD800) * 0x400 + (lo - 0xDC00)) as char, Unescape(t))
  {
    var s := UnicodeEscape(hi) + UnicodeEscape(lo) + t;
    Hex4RoundTrip(hi);
    Hex4RoundTrip(lo);
    assert s[2..6] == Hex4(hi);
    assert s[6] == '\\' && s[7] == 'u';
    assert s[8..12] == Hex4(lo);
    assert s[12..] == t;
  }

  lemma EscapeCharThen(c: char, t: string)
    ensures Unescape(EscapeChar(c) + t) == Prepend(c, Unescape(t))
  {
    var n := c as int;
    if Plain(c) {
      assert ([c] + t)[1..] == t;
    } else if c == '"' {
      UnescapeShort('"', t);
    } else if c == '\\' {
      UnescapeShort('\\', t);
    } else if n == 8 {
      UnescapeShort('b', t);
    } else if n == 12 {
      UnescapeShort('f', t);
    } else if n == 10 {
      UnescapeShort('n', t);
    } else if n == 13 {
      UnescapeShort('r', t);
    } else if n == 9 {
      UnescapeShort('t', t);
    } else if n < 0x10000 {
      UnescapeBmp(n, t);
    } else {
      var hi, lo := 0xD800 + (n - 0x10000) / 0x400, 0xDC00 + (n - 0x10000) % 0x400;
      assert 0x10000 + (hi - 0xD800) * 0x400 + (lo - 0xDC00) == n;
      UnescapePair(hi, lo, t);
    }
  }

  /** Decoding undoes `json.dumps` escaping, for every string. */
  lemma {:induction false} EscapeRoundTrip(s: string)
    ensures Unescape(Escape(s)) == Some(s)
    decreases |s|
  {
    if |s| > 0 {
      EscapeRoundTrip(s[1..]);
      EscapeCharThen(s[0], Escape(s[1..]));
      assert [s[0]] + s[1..] == s;
    }
  }

  /** Every character is printable ASCII. */
  ghost predicate Printable(s: string) {
    forall i :: 0 <= i < |s| ==> 0x20 <= s[i] as int <= 0x7E
  }

  lemma PrintableAppend(a: string, b: string)
    requires Printable(a) && Printable(b)
    ensures Printable(a + b)
  {
    forall i | 0 <= i < |a + b| ensures 0x20 <= (a + b)[i] as int <= 0x7E {
      if i >= |a| {
        assert (a + b)[i] == b[i - |a|];
      }
    }
  }

  lemma UnicodeEscapePrintable(n: nat)
    requires n < 0x10000
    ensures Printable(UnicodeEscape(n))
  {
  }

  lemma EscapeCharPrintable(c: char)
    ensures Printable(EscapeChar(c))
  {
    var n := c as int;
    if !Plain(c) && c != '"' && c != '\\' && n != 8 && n != 12 && n != 10 && n != 13 && n != 9 {
      if n < 0x10000 {
        UnicodeEscapePrintable(n);
      } else {
        var hi, lo := 0xD800 + (n - 0x10000) / 0x400, 0xDC00 + (n - 0x10000) % 0x400;
        UnicodeEscapePrintable(hi);
        UnicodeEscapePrintable(lo);
        PrintableAppend(UnicodeEscape(hi), UnicodeEscape(lo));
      }
    }
  }

  /** Escaped text is printable ASCII. */
  lemma {:induction false} EscapeIsAscii(s: string)
    ensures Printable(Escape(s))
    decreases |s|
  {
    if |s| > 0 {
      EscapeIsAscii(s[1..]);
      EscapeCharPrintable(s[0]);
      PrintableAppend(EscapeChar(s[0]), Escape(s[1..]));
    }
  }

  /** Text made only of plain characters is left as it is. */
  lemma {:induction false} EscapePlain(s: string)
    requires forall i :: 0 <= i < |s| ==> Plain(s[i])
    ensures Escape(s) == s
    decreases |s|
  {
    if |s| > 0 {
      EscapePlain(s[1..]);
      assert [s[0]] + s[1..] == s;
    }
  }

  function Shift(k: nat, r: Option<nat>): Option<nat> {
    match r
    case None => None
    case Some(i) => Some(i + k)
  }

  /** The index of the quote that closes a string literal's body: a
      backslash always takes the next character with it. */
  function ScanBody(s: string): Option<nat>
    decreases |s|
  {
    if |s| == 0 then None
    else if s[0] == '"' then Some(0)
    else if s[0] == '\\' then (if |s| < 2 then None else Shift(2, ScanBody(s[2..])))
    else Shift(1, ScanBody(s[1..]))
  }

  lemma ScanHex4(h: string, t: string)
    requires |h| == 4
    requires h[0] != '"' && h[0] != '\\' && h[1] != '"' && h[1] != '\\'
    requires h[2] != '"' && h[2] != '\\' && h[3] != '"' && h[3] != '\\'
    ensures ScanBody(h + t) == Shift(4, ScanBody(t))
  {
    var s := h + t;
    assert s[3..] == [h[3]] + t;
    assert s[2..] == [h[2]] + s[3..];
    assert s[1..] == [h[1]] + s[2..];
    assert s == [h[0]] + s[1..];
    ScanOne(h[3], t);
    ScanOne(h[2], s[3..]);
    ScanOne(h[1], s[2..]);
    ScanOne(h[0], s[1..]);
    match ScanBody(t)
    case None =>
    case Some(i) =>
  }

  lemma ScanPair(x: char, t: string)
    ensures ScanBody(['\\', x] + t) == Shift(2, ScanBody(t))
  {
    assert (['\\', x] + t)[2..] == t;
  }

  lemma ScanOne(c: char, t: string)
    requires c != '"' && c != '\\'
    ensures ScanBody([c] + t) == Shift(1, ScanBody(t))
  {
    assert ([c] + t)[1..] == t;
  }

  lemma ScanUnicode(n: nat, t: string)
    requires n < 0x10000
    ensures ScanBody(UnicodeEscape(n) + t) == Shift(6, ScanBody(t))
  {
    ScanHex4(Hex4(n), t);
    assert (UnicodeEscape(n) + t)[2..] == Hex4(n) + t;
  }

  lemma ScanEscapeChar(c: char, t: string)
    ensures ScanBody(EscapeChar(c) + t) == Shift(|EscapeChar(c)|, ScanBody(t))
  {
    var n := c as int;
    if Plain(c) {
      ScanOne(c, t);
    } else if c == '"' {
      ScanPair('"', t);
    } else if c == '\\' {
      ScanPair('\\', t);
    } else if n == 8 {
      ScanPair('b', t);
    } else if n == 12 {
      ScanPair('f', t);
    } else if n == 10 {
      ScanPair('n', t);
    } else if n == 13 {
      ScanPair('r', t);
    } else if n == 9 {
      ScanPair('t', t);
    } else if n < 0x10000 {
      ScanUnicode(n, t);
    } else {
      var hi, lo := 0xD800 + (n - 0x10000) / 0x400, 0xDC00 + (n - 0x10000) % 0x400;
      ScanUnicode(lo, t);
      ScanUnicode(hi, UnicodeEscape(lo) + t);
      assert UnicodeEscape(hi) + UnicodeEscape(lo) + t == UnicodeEscape(hi) + (UnicodeEscape(lo) + t);
    }
  }

  /** The scanner stops exactly at the quote that follows escaped text. */
  lemma {:induction false} ScanEscaped(x: string, t: string)
    ensures ScanBody(Escape(x) + "\"" + t) == Some(|Escape(x)|)
    decreases |x|
  {
    if |x| == 0 {
      assert Escape(x) + "\"" + t == "\"" + t;
    } else {
      ScanEscaped(x[1..], t);
      ScanEscapeChar(x[0], Escape(x[1..]) + "\"" + t);
      assert Escape(x) + "\"" + t == EscapeChar(x[0]) + (Escape(x[1..]) + "\"" + t);
    }
  }

  /** Reads a record `prefix BODY1 middle BODY2 suffix` where the two
      bodies are string-literal bodies, `prefix` ends with the opening
      quote of the first, and `middle` and `suffix` start with the closing
      quote of the string before them; gives back the two decoded strings. */
  function ParseTemplate(s: string, prefix: string, middle: string, suffix: string): Option<(string, string)> {
    if |s| < |prefix| || s[..|prefix|] != prefix then None
    else
      var r := s[|prefix|..];
      match ScanBody(r)
      case None => None
      case Some(i) =>
        if i > |r| then None
        else
          var r2 := r[i..];
          if |r2| < |middle| || r2[..|middle|] != middle then None
          else
            var r3 := r2[|middle|..];
            match ScanBody(r3)
            case None => None
            case Some(j) =>
              if j > |r3| || r3[j..] != suffix then None
              else
                match (Unescape(r[..i]), Unescape(r3[..j]))
                case (Some(k), Some(v)) => Some((k, v))
                case _ => None
  }

  /** Once the scanner stops at the end of each body, the record reads
      back as the two bodies decoded. */
  lemma ParseParts(prefix: string, b1: string, middle: string, b2: string, suffix: string)
    requires ScanBody(b1 + (middle + (b2 + suffix))) == Some(|b1|)
    requires ScanBody(b2 + suffix) == Some(|b2|)
    ensures ParseTemplate(prefix + (b1 + (middle + (b2 + suffix))), prefix, middle, suffix) ==
      match (Unescape(b1), Unescape(b2))
      case (Some(k), Some(v)) => Some((k, v))
      case _ => None
  {
    var t3 := b2 + suffix;
    var t2 := middle + t3;
    var t1 := b1 + t2;
    var s := prefix + t1;
    assert s[..|prefix|] == prefix && s[|prefix|..] == t1;
    assert t1[..|b1|] == b1 && t1[|b1|..] == t2;
    assert t2[..|middle|] == middle && t2[|middle|..] == t3;
    assert t3[..|b2|] == b2 && t3[|b2|..] == suffix;
  }

  lemma Regroup(a: string, b: string, c: string, d: string, e: string)
    ensures a + b + c + d + e == a + (b + (c + (d + e)))
  {
  }

  /** A closing quote split off the text that starts with it. */
  lemma QuoteFirst(x: string, m: string, rest: string)
    requires |m| > 0 && m[0] == '"'
    ensures x + "\"" + (m[1..] + rest) == x + (m + rest)
  {
    assert m == "\"" + m[1..];
  }

  /** A record written with escaped strings reads back as the two strings
      that were written. */
  lemma TemplateRoundTrip(prefix: string, middle: string, suffix: string, k: string, v: string)
    requires |middle| > 0 && middle[0] == '"'
    requires |suffix| > 0 && suffix[0] == '"'
    ensures ParseTemplate(prefix + Escape(k) + middle + Escape(v) + suffix, prefix, middle, suffix) == Some((k, v))
  {
    var ek, ev := Escape(k), Escape(v);
    ScanEscaped(k, middle[1..] + (ev + suffix));
    QuoteFirst(ek, middle, ev + suffix);
    ScanEscaped(v, suffix[1..] + "");
    QuoteFirst(ev, suffix, "");
    assert suffix + "" == suffix;
    EscapeRoundTrip(k);
    EscapeRoundTrip(v);
    ParseParts(prefix, ek, middle, ev, suffix);
    Regroup(prefix, ek, middle, ev, suffix);
  }

  /** A record whose first string body does not decode is not read. */
  lemma UndecodableFirstString(s: string, prefix: string, middle: string, suffix: string)
    requires |s| >= |prefix| && s[..|prefix|] == prefix
    requires ScanBody(s[|prefix|..]).Some?
    requires ScanBody(s[|prefix|..]).value <= |s| - |prefix|
    requires Unescape(s[|prefix|..][..ScanBody(s[|prefix|..]).value]) == None
    ensures ParseTemplate(s, prefix, middle, suffix) == None
  {
  }
}
