/** String operations shared by the Rust and the Python drafts: prefix and
    suffix tests, substring search, ASCII lowercasing, splitting on one
    character and joining, suffix trimming and decimal rendering. */
module Text {

  import opened Wrappers

  predicate StartsWith(s: string, p: string) {
    |p| <= |s| && s[..|p|] == p
  }

  predicate EndsWith(s: string, p: string) {
    |p| <= |s| && s[|s| - |p|..] == p
  }

  /** `p` occurs in `s` starting at index `i`. */
  predicate OccursAt(s: string, p: string, i: nat) {
    i + |p| <= |s| && s[i..i + |p|] == p
  }

  /** Substring search: Rust's `str::contains`, Python's `in`. */
  predicate Contains(s: string, p: string)
    decreases |s|
  {
    StartsWith(s, p) || (|s| > 0 && Contains(s[1..], p))
  }

  lemma {:induction false} ContainsOccurs(s: string, p: string)
    ensures Contains(s, p) <==> exists i :: OccursAt(s, p, i)
    decreases |s|
  {
    assert OccursAt(s, p, 0) <==> StartsWith(s, p) by {
      if |p| <= |s| { assert s[0..|p|] == s[..|p|]; }
    }
    if StartsWith(s, p) {
    } else if |s| == 0 {
      assert |p| > 0;
    } else {
      ContainsOccurs(s[1..], p);
      if exists i :: OccursAt(s, p, i) {
        var i: nat :| OccursAt(s, p, i);
        assert s[1..][i - 1..i - 1 + |p|] == s[i..i + |p|];
        assert OccursAt(s[1..], p, i - 1);
      }
      if exists i :: OccursAt(s[1..], p, i) {
        var i: nat :| OccursAt(s[1..], p, i);
        assert s[1..][i..i + |p|] == s[i + 1..i + 1 + |p|];
        assert OccursAt(s, p, i + 1);
      }
    }
  }

  /** One occurrence is enough for `Contains`. */
  lemma OccursThenContains(s: string, p: string, i: nat)
    requires OccursAt(s, p, i)
    ensures Contains(s, p)
  {
    ContainsOccurs(s, p);
  }

  /** ASCII lowercasing of one character (Unicode case mapping is not modelled). */
  function LowerChar(c: char): (r: char)
    ensures 'A' <= c <= 'Z' ==> 'a' <= r <= 'z' && r as int == c as int + 32
    ensures !('A' <= c <= 'Z') ==> r == c
  {
    if 'A' <= c <= 'Z' then (c as int + 32) as char else c
  }

  function Lower(s: string): (r: string)
    ensures |r| == |s|
    ensures forall i :: 0 <= i < |s| ==> r[i] == LowerChar(s[i])
  {
    seq(|s|, i requires 0 <= i < |s| => LowerChar(s[i]))
  }

  /** Lowercasing leaves no upper-case ASCII letter and is idempotent. */
  lemma LowerIdempotent(s: string)
    ensures forall i :: 0 <= i < |s| ==> !('A' <= Lower(s)[i] <= 'Z')
    ensures Lower(Lower(s)) == Lower(s)
  {
  }

  /** Split on every occurrence of `c`, as Rust's `split(c)` and Python's
      `split(c)` do for a one-character separator: always at least one
      piece, and no piece contains `c`. */
  function Split(s: string, c: char): (r: seq<string>)
    ensures |r| >= 1
    decreases |s|
  {
    if |s| == 0 then [""]
    else
      var rest := Split(s[1..], c);
      if s[0] == c then [""] + rest
      else [[s[0]] + rest[0]] + rest[1..]
  }

  /** Join pieces with a separator between consecutive pieces. */
  function JoinWith(ps: seq<string>, sep: string): string
    decreases |ps|
  {
    if |ps| == 0 then ""
    else if |ps| == 1 then ps[0]
    else ps[0] + sep + JoinWith(ps[1..], sep)
  }

  /** Python's `''.join(ps)`, Rust's `join("")`. */
  function Concat(ps: seq<string>): string
    decreases |ps|
  {
    if |ps| == 0 then "" else ps[0] + Concat(ps[1..])
  }

  /** Number of occurrences of `c` in `s`. */
  function Count(s: string, c: char): nat
    decreases |s|
  {
    if |s| == 0 then 0 else (if s[0] == c then 1 else 0) + Count(s[1..], c)
  }

  /** Occurrences in a concatenation add up. */
  lemma {:induction false} CountAppend(a: string, b: string, c: char)
    ensures Count(a + b, c) == Count(a, c) + Count(b, c)
    decreases |a|
  {
    if |a| > 0 {
      CountAppend(a[1..], b, c);
      assert (a + b)[1..] == a[1..] + b;
    } else {
      assert a + b == b;
    }
  }

  lemma {:induction false} CountAbsent(s: string, c: char)
    requires c !in s
    ensures Count(s, c) == 0
    decreases |s|
  {
    if |s| > 0 {
      CountAbsent(s[1..], c);
    }
  }

  lemma SplitInit(s: string, c: char)
    requires |s| > 0 && s[0] != c
    ensures var rest := Split(s[1..], c);
      Split(s, c) == [[s[0]] + rest[0]] + rest[1..]
  {
  }

  lemma {:induction false} SplitJoinBack(s: string, c: char)
    ensures JoinWith(Split(s, c), [c]) == s
    decreases |s|
  {
    if |s| > 0 {
      var rest := Split(s[1..], c);
      SplitJoinBack(s[1..], c);
      if s[0] == c {
        assert Split(s, c) == [""] + rest;
        assert JoinWith([""] + rest, [c]) == "" + [c] + JoinWith(rest, [c]);
        assert [c] + s[1..] == s;
      } else {
        var r := Split(s, c);
        SplitInit(s, c);
        if |rest| == 1 {
          assert JoinWith(r, [c]) == [s[0]] + rest[0];
          assert JoinWith(rest, [c]) == rest[0];
        } else {
          assert r[1..] == rest[1..];
          assert JoinWith(r, [c]) == [s[0]] + rest[0] + [c] + JoinWith(rest[1..], [c]);
          assert JoinWith(rest, [c]) == rest[0] + [c] + JoinWith(rest[1..], [c]);
        }
        assert [s[0]] + s[1..] == s;
      }
    }
  }

  lemma {:induction false} SplitPiecesFree(s: string, c: char)
    ensures forall k :: 0 <= k < |Split(s, c)| ==> c !in Split(s, c)[k]
    decreases |s|
  {
    if |s| > 0 {
      var rest := Split(s[1..], c);
      SplitPiecesFree(s[1..], c);
      if s[0] != c {
        var r := Split(s, c);
        SplitInit(s, c);
        forall k | 0 <= k < |r| ensures c !in r[k] {
          if k > 0 { assert r[k] == rest[k]; }
        }
      }
    }
  }

  lemma {:induction false} SplitCount(s: string, c: char)
    ensures |Split(s, c)| == Count(s, c) + 1
    decreases |s|
  {
    if |s| > 0 {
      SplitCount(s[1..], c);
      if s[0] != c {
        SplitInit(s, c);
      }
    }
  }

  /** Splitting then joining with the separator gives the input back; the
      pieces hold no separator, and there is one more piece than there are
      separators. */
  lemma SplitJoin(s: string, c: char)
    ensures JoinWith(Split(s, c), [c]) == s
    ensures forall k :: 0 <= k < |Split(s, c)| ==> c !in Split(s, c)[k]
    ensures |Split(s, c)| == Count(s, c) + 1
  {
    SplitJoinBack(s, c);
    SplitPiecesFree(s, c);
    SplitCount(s, c);
  }

  /** A string without the separator is a single piece. */
  lemma {:induction false} SplitWithoutSeparator(s: string, c: char)
    requires c !in s
    ensures Split(s, c) == [s]
    decreases |s|
  {
    if |s| > 0 {
      SplitWithoutSeparator(s[1..], c);
      assert [s[0]] + s[1..] == s;
    }
  }

  lemma {:induction false} ConcatAppend(ps: seq<string>, q: string)
    ensures Concat(ps + [q]) == Concat(ps) + q
    decreases |ps|
  {
    if |ps| == 0 {
      assert ps + [q] == [q];
    } else {
      ConcatAppend(ps[1..], q);
      assert (ps + [q])[1..] == ps[1..] + [q];
    }
  }

  /** Joining pieces that lack `c` gives text without `c`. */
  lemma {:induction false} ConcatWithout(ps: seq<string>, c: char)
    requires forall i :: 0 <= i < |ps| ==> c !in ps[i]
    ensures Count(Concat(ps), c) == 0
    decreases |ps|
  {
    if |ps| > 0 {
      ConcatWithout(ps[1..], c);
      CountAbsent(ps[0], c);
      CountAppend(ps[0], Concat(ps[1..]), c);
    }
  }

  /** Two separator-free pieces joined by the separator split back. */
  lemma SplitTwo(a: string, b: string, c: char)
    requires c !in a && c !in b
    ensures Split(a + [c] + b, c) == [a, b]
  {
    SplitWithoutSeparator(b, c);
    assert ([c] + b)[1..] == b;
    PrefixSplit(a, [c] + b, c, Split(b, c));
    assert a + [c] + b == a + ([c] + b);
  }

  /** Putting separator-free text before a string that starts with the
      separator adds one piece at the front. */
  lemma {:induction false} PrefixSplit(a: string, t: string, c: char, rest: seq<string>)
    requires c !in a && |t| > 0 && t[0] == c
    requires Split(t[1..], c) == rest
    ensures Split(a + t, c) == [a] + rest
    decreases |a|
  {
    if |a| == 0 {
      assert a + t == t;
    } else {
      PrefixSplit(a[1..], t, c, rest);
      assert (a + t)[1..] == a[1..] + t;
      assert [a[0]] + a[1..] == a;
    }
  }

  /** Python's `s.split(c)[-1]`. */
  function LastPiece(s: string, c: char): string {
    Split(s, c)[|Split(s, c)| - 1]
  }

  /** The last piece never holds the separator, so taking it twice is the
      same as taking it once. */
  lemma LastPieceIdempotent(s: string, c: char)
    ensures c !in LastPiece(s, c)
    ensures LastPiece(LastPiece(s, c), c) == LastPiece(s, c)
  {
    SplitJoin(s, c);
    SplitWithoutSeparator(LastPiece(s, c), c);
  }

  /** Rust's `s.split(c).nth(n).unwrap_or_default()`. */
  function NthPiece(s: string, c: char, n: nat): string {
    var ps := Split(s, c);
    if n < |ps| then ps[n] else ""
  }

  /** `k` copies of `p`, one after the other. */
  function Repeat(p: string, k: nat): string {
    if k == 0 then "" else Repeat(p, k - 1) + p
  }

  /** Rust's `s.trim_end_matches(p)`: strip `p` from the end for as long as
      the string ends with it. */
  function TrimEndMatches(s: string, p: string): string
    requires |p| > 0
    decreases |s|
  {
    if EndsWith(s, p) then TrimEndMatches(s[..|s| - |p|], p) else s
  }

  lemma Assoc(a: string, b: string, c: string)
    ensures a + b + c == a + (b + c)
  {
  }

  /** Trimming removes `k` whole copies of `p`, and no copy is left. */
  lemma {:induction false} TrimmedCopies(s: string, p: string) returns (k: nat)
    requires |p| > 0
    ensures !EndsWith(TrimEndMatches(s, p), p)
    ensures s == TrimEndMatches(s, p) + Repeat(p, k)
    decreases |s|
  {
    if EndsWith(s, p) {
      var shorter := s[..|s| - |p|];
      var j := TrimmedCopies(shorter, p);
      k := j + 1;
      var t := TrimEndMatches(shorter, p);
      assert s == shorter + p by {
        assert s == shorter + s[|s| - |p|..];
      }
      assert TrimEndMatches(s, p) == t;
      assert Repeat(p, k) == Repeat(p, j) + p;
      Assoc(t, Repeat(p, j), p);
    } else {
      k := 0;
      assert s + Repeat(p, 0) == s by {
        assert Repeat(p, 0) == "";
      }
    }
  }

  /** What trimming removes is whole copies of `p`, and it removes them all. */
  lemma TrimEndMatchesRemovesAll(s: string, p: string)
    requires |p| > 0
    ensures !EndsWith(TrimEndMatches(s, p), p)
    ensures exists k: nat :: s == TrimEndMatches(s, p) + Repeat(p, k)
  {
    var k := TrimmedCopies(s, p);
  }

  /** Rust's `s.strip_suffix(p)`: at most one copy of `p` is removed. */
  function StripSuffix(s: string, p: string): (r: Option<string>)
    ensures r.Some? <==> EndsWith(s, p)
    ensures r.Some? ==> r.value + p == s
  {
    if EndsWith(s, p) then Some(s[..|s| - |p|]) else None
  }

  function TrimStart(s: string, c: char): string
    decreases |s|
  {
    if |s| > 0 && s[0] == c then TrimStart(s[1..], c) else s
  }

  function TrimEnd(s: string, c: char): string
    decreases |s|
  {
    if |s| > 0 && s[|s| - 1] == c then TrimEnd(s[..|s| - 1], c) else s
  }

  /** Python's `s.strip(c)`: every leading and every trailing `c` goes. */
  function Strip(s: string, c: char): string {
    TrimEnd(TrimStart(s, c), c)
  }

  /** `TrimStart` removes `a` leading copies of `c` and leaves none. */
  lemma {:induction false} TrimStartShape(s: string, c: char) returns (a: nat)
    ensures s == Repeat([c], a) + TrimStart(s, c)
    ensures TrimStart(s, c) == [] || TrimStart(s, c)[0] != c
    decreases |s|
  {
    if |s| > 0 && s[0] == c {
      var a' := TrimStartShape(s[1..], c);
      a := a' + 1;
      var t := TrimStart(s[1..], c);
      assert s == [c] + (Repeat([c], a') + t) by {
        assert s == [c] + s[1..];
      }
      Assoc([c], Repeat([c], a'), t);
      RepeatOneMore([c], a');
    } else {
      a := 0;
      assert s == Repeat([c], 0) + s;
    }
  }

  /** `TrimEnd` removes `b` trailing copies of `c` and leaves none. */
  lemma {:induction false} TrimEndShape(s: string, c: char) returns (b: nat)
    ensures s == TrimEnd(s, c) + Repeat([c], b)
    ensures TrimEnd(s, c) == [] || TrimEnd(s, c)[|TrimEnd(s, c)| - 1] != c
    decreases |s|
  {
    if |s| > 0 && s[|s| - 1] == c {
      var shorter := s[..|s| - 1];
      var b' := TrimEndShape(shorter, c);
      b := b' + 1;
      assert s == shorter + [c];
      Assoc(TrimEnd(shorter, c), Repeat([c], b'), [c]);
    } else {
      b := 0;
      assert s == s + Repeat([c], 0);
    }
  }

  lemma {:induction false} RepeatChar(c: char, k: nat)
    ensures |Repeat([c], k)| == k
    ensures forall i :: 0 <= i < k ==> Repeat([c], k)[i] == c
  {
    if k > 0 {
      RepeatChar(c, k - 1);
    }
  }

  lemma {:induction false} RepeatOneMore(p: string, k: nat)
    ensures p + Repeat(p, k) == Repeat(p, k + 1)
  {
    if k > 0 {
      RepeatOneMore(p, k - 1);
    }
  }

  /** `strip` removes only copies of `c` from the two ends, removes all of
      them, and leaves a string without `c` alone. */
  lemma StripShape(s: string, c: char)
    ensures exists a: nat, b: nat :: s == Repeat([c], a) + Strip(s, c) + Repeat([c], b)
    ensures Strip(s, c) == [] || (Strip(s, c)[0] != c && Strip(s, c)[|Strip(s, c)| - 1] != c)
    ensures c !in s ==> Strip(s, c) == s
  {
    var t := TrimStart(s, c);
    var u := Strip(s, c);
    var a := TrimStartShape(s, c);
    var b := TrimEndShape(t, c);
    assert s == Repeat([c], a) + u + Repeat([c], b) by {
      Assoc(Repeat([c], a), u, Repeat([c], b));
    }
    if u != [] {
      assert u[0] != c by {
        assert t[..|u|] == u;
        assert u[0] == t[0];
      }
    }
    assert a > 0 ==> s[0] == c by {
      RepeatChar(c, a);
      if a > 0 { assert s[0] == Repeat([c], a)[0]; }
    }
    assert b > 0 ==> s[|s| - 1] == c by {
      RepeatChar(c, b);
      if b > 0 { assert s[|s| - 1] == Repeat([c], b)[b - 1]; }
    }
    assert Repeat([c], 0) + u + Repeat([c], 0) == u by {
      assert Repeat([c], 0) == [];
    }
  }

  function DigitChar(d: nat): (r: char)
    requires d < 10
    ensures '0' <= r <= '9'
  {
    ('0' as int + d) as char
  }

  /** Decimal rendering of a natural number (Python's `f'{n}'`). */
  function Decimal(n: nat): (r: string)
    ensures |r| >= 1
    ensures forall i :: 0 <= i < |r| ==> '0' <= r[i] <= '9'
  {
    if n < 10 then [DigitChar(n)] else Decimal(n / 10) + [DigitChar(n % 10)]
  }

  /** Reads a string of decimal digits back as a number. */
  function ParseDecimal(s: string): nat
    requires forall i :: 0 <= i < |s| ==> '0' <= s[i] <= '9'
  {
    if |s| == 0 then 0 else 10 * ParseDecimal(s[..|s| - 1]) + (s[|s| - 1] as int - '0' as int)
  }

  /** Rendering loses nothing: parsing the decimal text gives the number back. */
  lemma {:induction false} DecimalRoundTrip(n: nat)
    ensures ParseDecimal(Decimal(n)) == n
  {
    if n >= 10 {
      DecimalRoundTrip(n / 10);
      var s := Decimal(n);
      assert s[..|s| - 1] == Decimal(n / 10);
    }
  }
}
