/** The spreadsheet helper (handle_excel.py): the longest common substring
    of two strings, compared without regard to ASCII case, and the scan of
    a sheet's header row for the cells that look like the model name. */
module ExcelHelper {

  import opened Wrappers
  import opened Text

  // ---------------------------------------------------------------------
  // The table the dynamic programme fills

  /** The length of the longest common suffix of `a[..i]` and `b[..j]`:
      the entry `dp[i][j]`. */
  function Csl(a: string, b: string, i: nat, j: nat): (r: nat)
    requires i <= |a| && j <= |b|
    ensures r <= i && r <= j
    decreases i
  {
    if i == 0 || j == 0 || a[i - 1] != b[j - 1] then 0 else Csl(a, b, i - 1, j - 1) + 1
  }

  /** A positive entry sits on a pair of equal characters. */
  lemma CslPositive(a: string, b: string, i: nat, j: nat)
    requires i <= |a| && j <= |b|
    ensures Csl(a, b, i, j) > 0 ==> 0 < i && 0 < j && a[i - 1] == b[j - 1]
  {
  }

  function Max(x: nat, y: nat): nat {
    if x >= y then x else y
  }

  /** The largest entry of row `i` up to column `j`. */
  function MaxCols(a: string, b: string, i: nat, j: nat): nat
    requires i <= |a| && j <= |b|
    decreases j
  {
    if j == 0 then 0 else Max(MaxCols(a, b, i, j - 1), Csl(a, b, i, j))
  }

  /** The largest entry of rows `0..i`. */
  function MaxRows(a: string, b: string, i: nat): nat
    requires i <= |a|
    decreases i
  {
    if i == 0 then MaxCols(a, b, 0, |b|) else Max(MaxRows(a, b, i - 1), MaxCols(a, b, i, |b|))
  }

  /** No entry of row `i` up to column `j` exceeds the row's maximum. */
  lemma {:induction false} MaxColsBound(a: string, b: string, i: nat, j: nat, j': nat)
    requires i <= |a| && j' <= j <= |b|
    ensures Csl(a, b, i, j') <= MaxCols(a, b, i, j)
    decreases j
  {
    if j' < j {
      MaxColsBound(a, b, i, j - 1, j');
    }
  }

  /** Some entry of row `i` up to column `j` is the row's maximum. */
  lemma {:induction false} MaxColsAttained(a: string, b: string, i: nat, j: nat) returns (j': nat)
    requires i <= |a| && j <= |b|
    ensures j' <= j && Csl(a, b, i, j') == MaxCols(a, b, i, j)
    decreases j
  {
    if j == 0 {
      j' := 0;
    } else if MaxCols(a, b, i, j - 1) >= Csl(a, b, i, j) {
      j' := MaxColsAttained(a, b, i, j - 1);
    } else {
      j' := j;
    }
  }

  /** No entry of rows `0..i` exceeds their maximum. */
  lemma {:induction false} MaxRowsBound(a: string, b: string, i: nat, i': nat, j: nat)
    requires i' <= i <= |a| && j <= |b|
    ensures Csl(a, b, i', j) <= MaxRows(a, b, i)
    decreases i
  {
    if i' < i {
      MaxRowsBound(a, b, i - 1, i', j);
    } else {
      MaxColsBound(a, b, i, |b|, j);
    }
  }

  /** Some entry of rows `0..i` is their maximum. */
  lemma {:induction false} MaxRowsAttained(a: string, b: string, i: nat) returns (i': nat, j': nat)
    requires i <= |a|
    ensures i' <= i && j' <= |b| && Csl(a, b, i', j') == MaxRows(a, b, i)
    decreases i
  {
    if i == 0 {
      i' := 0;
      j' := MaxColsAttained(a, b, 0, |b|);
    } else if MaxRows(a, b, i - 1) >= MaxCols(a, b, i, |b|) {
      i', j' := MaxRowsAttained(a, b, i - 1);
    } else {
      i' := i;
      j' := MaxColsAttained(a, b, i, |b|);
    }
  }

  /** The first row from `i` on whose largest entry reaches `k`, or `|a|`
      when there is none. */
  function FirstRow(a: string, b: string, k: nat, i: nat): (r: nat)
    requires i <= |a|
    ensures i <= r <= |a|
    decreases |a| - i
  {
    if i == |a| || MaxCols(a, b, i, |b|) >= k then i else FirstRow(a, b, k, i + 1)
  }

  /** No row before the first one reaches `k`, and the first one does
      when some row at or after `r` does. */
  lemma {:induction false} FirstRowIsFirst(a: string, b: string, k: nat, i: nat, r: nat)
    requires i <= r <= |a|
    ensures r < FirstRow(a, b, k, i) ==> MaxCols(a, b, r, |b|) < k
    ensures MaxCols(a, b, r, |b|) >= k ==> MaxCols(a, b, FirstRow(a, b, k, i), |b|) >= k && FirstRow(a, b, k, i) <= r
    decreases |a| - i
  {
    if i < r && MaxCols(a, b, i, |b|) < k {
      FirstRowIsFirst(a, b, k, i + 1, r);
    }
  }

  /** The row where the result ends: the first row holding an entry of
      the greatest length. */
  function LcsEnd(a: string, b: string): (e: nat)
    ensures MaxRows(a, b, |a|) <= e <= |a|
  {
    LcsEndFits(a, b);
    var m := MaxRows(a, b, |a|);
    if m == 0 then 0 else FirstRow(a, b, m, 0)
  }

  /** The greatest entry ends at or after its own length. */
  lemma LcsEndFits(a: string, b: string)
    ensures var m := MaxRows(a, b, |a|); m > 0 ==> m <= FirstRow(a, b, m, 0)
  {
    var m := MaxRows(a, b, |a|);
    if m > 0 {
      var i', j' := MaxRowsAttained(a, b, |a|);
      MaxColsBound(a, b, i', |b|, j');
      FirstRowIsFirst(a, b, m, 0, i');
      var e := FirstRow(a, b, m, 0);
      var j := MaxColsAttained(a, b, e, |b|);
      MaxRowsBound(a, b, |a|, e, j);
    }
  }

  /** The longest common substring, taken from `a` at the first row where
      an entry of the greatest length appears. */
  function Lcs(a: string, b: string): (r: string)
    ensures |r| == MaxRows(a, b, |a|)
  {
    var e, m := LcsEnd(a, b), MaxRows(a, b, |a|);
    a[e - m..e]
  }

  // ---------------------------------------------------------------------
  // longest_common_substring

  /** Row `r` of the table holds the entries up to column `n`. */
  ghost predicate RowHolds(dp: array2<nat>, a: string, b: string, r: nat, n: nat)
    requires r <= |a| && n <= |b| + 1
    reads dp
  {
    r < dp.Length0 && n <= dp.Length1 &&
    forall j :: 0 <= j < n ==> dp[r, j] == Csl(a, b, r, j)
  }

  /** Rows from `r` on are still all zero. */
  ghost predicate ZeroFrom(dp: array2<nat>, r: nat)
    reads dp
  {
    forall r', c :: r <= r' < dp.Length0 && 0 <= c < dp.Length1 ==> dp[r', c] == 0
  }

  method LongestCommonSubstring(s1: string, s2: string) returns (result: string)
    ensures result == Lcs(Lower(s1), Lower(s2))
  {
    var a := Lower(s1);
    var b := Lower(s2);
    var m := |a|;
    var n := |b|;
    var dp := new nat[m + 1, n + 1]((_, _) => 0);
    assert RowHolds(dp, a, b, 0, n + 1) && ZeroFrom(dp, 1) by {
      forall j | 0 <= j < n + 1 ensures dp[0, j] == Csl(a, b, 0, j) {
        assert dp[0, j] == 0;
      }
    }
    var maxLen, end := FillTable(dp, a, b);
    if maxLen > 0 {
      var start := end - maxLen;
      result := a[start..end];
    } else {
      result := "";
    }
  }

  /** The outer loop: fills the rows one by one and ends with the greatest
      entry and the first row that holds it. */
  method FillTable(dp: array2<nat>, a: string, b: string) returns (maxLen: nat, end: nat)
    requires dp.Length0 == |a| + 1 && dp.Length1 == |b| + 1
    requires RowHolds(dp, a, b, 0, |b| + 1) && ZeroFrom(dp, 1)
    modifies dp
    ensures maxLen == MaxRows(a, b, |a|) && end == LcsEnd(a, b)
    ensures forall r, c :: 0 <= r <= |a| && 0 <= c <= |b| ==> dp[r, c] == Csl(a, b, r, c)
  {
    maxLen, end := 0, 0;
    assert maxLen == MaxRows(a, b, 0) by {
      RowZero(a, b, |b|);
    }
    for i := 1 to |a| + 1
      invariant forall r, c :: 0 <= r < i && 0 <= c <= |b| ==> dp[r, c] == Csl(a, b, r, c)
      invariant ZeroFrom(dp, i)
      invariant maxLen == MaxRows(a, b, i - 1)
      invariant end == LcsEndSoFar(a, b, maxLen)
    {
      maxLen, end := FillRow(dp, a, b, i, maxLen, end);
    }
  }

  /** One pass of the inner loop: fills row `i` from row `i - 1` and
      carries the running maximum and its end along. */
  method FillRow(dp: array2<nat>, a: string, b: string, i: nat, maxLen0: nat, end0: nat)
    returns (maxLen: nat, end: nat)
    requires 0 < i <= |a| && dp.Length0 == |a| + 1 && dp.Length1 == |b| + 1
    requires RowHolds(dp, a, b, i - 1, |b| + 1) && ZeroFrom(dp, i)
    requires maxLen0 == MaxRows(a, b, i - 1) && end0 == LcsEndSoFar(a, b, maxLen0)
    modifies dp
    ensures RowHolds(dp, a, b, i, |b| + 1) && ZeroFrom(dp, i + 1)
    ensures forall r, c :: 0 <= r < i && 0 <= c < dp.Length1 ==> dp[r, c] == old(dp[r, c])
    ensures maxLen == MaxRows(a, b, i) && end == LcsEndSoFar(a, b, maxLen)
  {
    maxLen, end := maxLen0, end0;
    for j := 1 to |b| + 1
      invariant forall r, c :: 0 <= r < i && 0 <= c < dp.Length1 ==> dp[r, c] == old(dp[r, c])
      invariant RowHolds(dp, a, b, i - 1, |b| + 1)
      invariant RowHolds(dp, a, b, i, j)
      invariant ZeroFrom(dp, i + 1)
      invariant maxLen == Max(MaxRows(a, b, i - 1), MaxCols(a, b, i, j - 1))
      invariant end == LcsEndSoFar(a, b, maxLen)
    {
      if a[i - 1] == b[j - 1] {
        dp[i, j] := dp[i - 1, j - 1] + 1;
        if dp[i, j] > maxLen {
          NewMaximum(a, b, i, j, maxLen);
          maxLen := dp[i, j];
          end := i;
        }
      } else {
        dp[i, j] := 0;
      }
    }
  }

  /** Row 0 of the table is all zero. */
  lemma {:induction false} RowZero(a: string, b: string, j: nat)
    requires j <= |b|
    ensures MaxCols(a, b, 0, j) == 0
    decreases j
  {
    if j > 0 {
      RowZero(a, b, j - 1);
    }
  }

  /** Where the scan has its `end` for a running maximum `k`. */
  function LcsEndSoFar(a: string, b: string, k: nat): nat {
    if k == 0 then 0 else FirstRow(a, b, k, 0)
  }

  /** An entry of row `i` larger than every entry seen before makes row `i`
      the first to reach it. */
  lemma NewMaximum(a: string, b: string, i: nat, j: nat, k: nat)
    requires 0 < i <= |a| && j <= |b|
    requires k >= MaxRows(a, b, i - 1) && Csl(a, b, i, j) > k
    ensures LcsEndSoFar(a, b, Csl(a, b, i, j)) == i
  {
    var c := Csl(a, b, i, j);
    MaxColsBound(a, b, i, |b|, j);
    forall r | 0 <= r < i ensures MaxCols(a, b, r, |b|) < c {
      RowBelowMaxRows(a, b, i - 1, r);
    }
    FirstRowFrom(a, b, c, 0, i);
  }

  /** Every row's largest entry is at most the largest entry of the rows
      up to it. */
  lemma {:induction false} RowBelowMaxRows(a: string, b: string, i: nat, r: nat)
    requires r <= i <= |a|
    ensures MaxCols(a, b, r, |b|) <= MaxRows(a, b, i)
    decreases i
  {
    if r < i {
      RowBelowMaxRows(a, b, i - 1, r);
    }
  }

  /** A row that reaches `k` after rows that all stay below it is the first
      row to reach `k`. */
  lemma {:induction false} FirstRowFrom(a: string, b: string, k: nat, i: nat, r: nat)
    requires i <= r <= |a|
    requires forall i' :: i <= i' < r ==> MaxCols(a, b, i', |b|) < k
    requires MaxCols(a, b, r, |b|) >= k
    ensures FirstRow(a, b, k, i) == r
    decreases r - i
  {
    if i < r {
      FirstRowFrom(a, b, k, i + 1, r);
    }
  }

  // ---------------------------------------------------------------------
  // What the table says about substrings

  /** A common suffix of that length is one. */
  lemma {:induction false} CslMatch(a: string, b: string, i: nat, j: nat)
    requires i <= |a| && j <= |b|
    ensures a[i - Csl(a, b, i, j)..i] == b[j - Csl(a, b, i, j)..j]
    decreases i
  {
    var k := Csl(a, b, i, j);
    if k > 0 {
      CslMatch(a, b, i - 1, j - 1);
      assert a[i - k..i] == a[i - k..i - 1] + [a[i - 1]];
      assert b[j - k..j] == b[j - k..j - 1] + [b[j - 1]];
    }
  }

  /** A common substring ending at `i` in `a` and at `j` in `b` is counted
      by the entry `(i, j)`. */
  lemma {:induction false} CslAtLeast(a: string, b: string, i: nat, j: nat, k: nat)
    requires k <= i <= |a| && k <= j <= |b| && a[i - k..i] == b[j - k..j]
    ensures Csl(a, b, i, j) >= k
    decreases k
  {
    if k > 0 {
      assert a[i - 1] == a[i - k..i][k - 1] == b[j - k..j][k - 1] == b[j - 1];
      assert a[i - k..i - 1] == a[i - k..i][..k - 1];
      assert b[j - k..j - 1] == b[j - k..j][..k - 1];
      CslAtLeast(a, b, i - 1, j - 1, k - 1);
    }
  }

  /** `t in s`: `t` occurs somewhere in `s`. */
  ghost predicate Within(t: string, s: string) {
    exists p: nat :: OccursAt(s, t, p)
  }

  /** At the row where the result ends, some column holds an entry of
      the greatest length. */
  lemma LcsEndColumn(a: string, b: string) returns (j: nat)
    requires MaxRows(a, b, |a|) > 0
    ensures j <= |b| && Csl(a, b, LcsEnd(a, b), j) == MaxRows(a, b, |a|)
  {
    var m := MaxRows(a, b, |a|);
    var e := LcsEnd(a, b);
    assert MaxCols(a, b, e, |b|) >= m by {
      var i', j' := MaxRowsAttained(a, b, |a|);
      MaxColsBound(a, b, i', |b|, j');
      FirstRowIsFirst(a, b, m, 0, i');
    }
    j := MaxColsAttained(a, b, e, |b|);
    MaxRowsBound(a, b, |a|, e, j);
  }

  /** The longest common substring is a substring of both strings. */
  lemma LcsCommon(a: string, b: string)
    ensures Within(Lcs(a, b), a) && Within(Lcs(a, b), b)
  {
    var r := Lcs(a, b);
    var m := |r|;
    var e := LcsEnd(a, b);
    assert OccursAt(a, r, e - m);
    if m == 0 {
      assert OccursAt(b, r, 0);
    } else {
      var j := LcsEndColumn(a, b);
      assert b[j - m..j] == r by {
        CslMatch(a, b, e, j);
      }
      assert OccursAt(b, r, j - m);
    }
  }

  /** No common substring is longer than the result. */
  lemma LcsLongest(a: string, b: string, t: string)
    requires Within(t, a) && Within(t, b)
    ensures |t| <= |Lcs(a, b)|
  {
    var p: nat :| OccursAt(a, t, p);
    var q: nat :| OccursAt(b, t, q);
    CslAtLeast(a, b, p + |t|, q + |t|, |t|);
    MaxRowsBound(a, b, |a|, p + |t|, q + |t|);
  }

  /** Of the common substrings of greatest length, the result is the one
      that ends first in `a`. */
  lemma LcsFirst(a: string, b: string, e: nat)
    requires |Lcs(a, b)| <= e <= |a| && Within(a[e - |Lcs(a, b)|..e], b)
    ensures LcsEnd(a, b) <= e
    ensures Lcs(a, b) == a[LcsEnd(a, b) - |Lcs(a, b)|..LcsEnd(a, b)]
  {
    var k := |Lcs(a, b)|;
    if k > 0 {
      var q: nat :| OccursAt(b, a[e - k..e], q);
      CslAtLeast(a, b, e, q + k, k);
      MaxColsBound(a, b, e, |b|, q + k);
      FirstRowIsFirst(a, b, k, 0, e);
    }
  }

  /** The result is empty exactly when the strings share no character. */
  lemma LcsEmptyIff(a: string, b: string)
    ensures |Lcs(a, b)| == 0 <==> forall i, j :: 0 <= i < |a| && 0 <= j < |b| ==> a[i] != b[j]
  {
    var i', j' := MaxRowsAttained(a, b, |a|);
    CslPositive(a, b, i', j');
    forall i, j | 0 <= i < |a| && 0 <= j < |b| && a[i] == b[j] ensures MaxRows(a, b, |a|) > 0 {
      assert Csl(a, b, i + 1, j + 1) >= 1;
      MaxRowsBound(a, b, |a|, i + 1, j + 1);
    }
  }

  /** Swapping the strings keeps the length of the result. */
  lemma LcsLengthSymmetric(a: string, b: string)
    ensures |Lcs(a, b)| == |Lcs(b, a)|
  {
    LcsCommon(a, b);
    LcsCommon(b, a);
    LcsLongest(a, b, Lcs(b, a));
    LcsLongest(b, a, Lcs(a, b));
  }

  /** The result comes from the lowered first string, so it holds no
      upper-case ASCII letter. */
  lemma LcsLowerCase(s1: string, s2: string)
    ensures forall i :: 0 <= i < |Lcs(Lower(s1), Lower(s2))| ==> !('A' <= Lcs(Lower(s1), Lower(s2))[i] <= 'Z')
  {
    var a := Lower(s1);
    LcsEndFits(a, Lower(s2));
    LowerIdempotent(s1);
  }

  /** On a tie the first end in `a` wins: `A` against `AA` gives `a`. */
  lemma LcsTie()
    ensures Lcs(Lower("A"), Lower("AA")) == "a"
  {
    var a, b := Lower("A"), Lower("AA");
    assert a == "a" && b == "aa";
    assert MaxCols(a, b, 1, 2) == 1;
    assert MaxRows(a, b, 1) == 1;
    assert FirstRow(a, b, 1, 0) == 1;
  }

  // ---------------------------------------------------------------------
  // The header scan of find_project_name

  /** A header cell the scan records: not empty, and sharing more than four
      characters in a row with the model name. */
  predicate Qualifies(modelName: string, cell: Option<string>) {
    cell.Some? && |Lcs(Lower(modelName), Lower(cell.value))| > 4
  }

  /** The number of non-empty cells. */
  function Filled(row: seq<Option<string>>): nat
    decreases |row|
  {
    if |row| == 0 then 0 else Filled(row[..|row| - 1]) + (if row[|row| - 1].Some? then 1 else 0)
  }

  /** The cells recorded from a header row: their position counted over
      the non-empty cells only, from 1, and the label `<n>: <value>` with
      `n` counting the recorded cells from 1. */
  function Candidates(modelName: string, row: seq<Option<string>>): (r: seq<(nat, string)>)
    ensures |r| <= Filled(row)
    decreases |row|
  {
    if |row| == 0 then []
    else
      var c := Candidates(modelName, row[..|row| - 1]);
      var cell := row[|row| - 1];
      if Qualifies(modelName, cell) then
        c + [(Filled(row[..|row| - 1]) + 1, Decimal(|c| + 1) + ": " + cell.value)]
      else c
  }

  method ScanHeaderRow(modelName: string, row: seq<Option<string>>) returns (allProjectName: seq<(nat, string)>)
    ensures allProjectName == Candidates(modelName, row)
  {
    allProjectName := [];
    var index := 1;
    var cur := 1;
    for k := 0 to |row|
      invariant allProjectName == Candidates(modelName, row[..k])
      invariant index == |allProjectName| + 1
      invariant cur == Filled(row[..k]) + 1
    {
      assert row[..k + 1][..k] == row[..k];
      var cell := row[k];
      if cell.None? {
        continue;
      }
      var cellValue := cell.value;
      var common := LongestCommonSubstring(modelName, cellValue);
      if |common| > 4 {
        allProjectName := allProjectName + [(cur, Decimal(index) + ": " + cellValue)];
        index := index + 1;
      }
      cur := cur + 1;
    }
    assert row[..|row|] == row;
  }

  /** Positions lie in `1..filled` and rise strictly; the labels are
      numbered `1: `, `2: `, … in turn. */
  ghost predicate WellNumbered(c: seq<(nat, string)>, filled: nat) {
    (forall k :: 0 <= k < |c| ==> 1 <= c[k].0 <= filled && StartsWith(c[k].1, Decimal(k + 1) + ": ")) &&
    (forall k, l :: 0 <= k < l < |c| ==> c[k].0 < c[l].0)
  }

  /** Recorded cells keep row order with positions rising strictly among
      the non-empty cells, and the labels are numbered 1, 2, … in turn. */
  lemma {:induction false} CandidatesShape(modelName: string, row: seq<Option<string>>)
    ensures WellNumbered(Candidates(modelName, row), Filled(row))
    decreases |row|
  {
    if |row| > 0 {
      var init := row[..|row| - 1];
      var cell := row[|row| - 1];
      CandidatesShape(modelName, init);
      var c0 := Candidates(modelName, init);
      var c := Candidates(modelName, row);
      if Qualifies(modelName, cell) {
        var l := Decimal(|c0| + 1) + ": ";
        var e := (Filled(init) + 1, l + cell.value);
        assert c == c0 + [e];
        assert Filled(row) == Filled(init) + 1;
        assert (l + cell.value)[..|l|] == l;
        forall k | 0 <= k < |c|
          ensures 1 <= c[k].0 <= Filled(row) && StartsWith(c[k].1, Decimal(k + 1) + ": ")
        {
          if k < |c0| {
            assert c[k] == c0[k];
          } else {
            assert c[k] == e;
          }
        }
        forall k, l' | 0 <= k < l' < |c| ensures c[k].0 < c[l'].0 {
          assert c[k] == c0[k];
          if l' < |c0| {
            assert c[l'] == c0[l'];
          } else {
            assert c[l'] == e;
          }
        }
      } else {
        assert c == c0;
        assert Filled(row) >= Filled(init);
      }
    }
  }

  /** Some recorded cell has position `p`. */
  ghost predicate HasPosition(c: seq<(nat, string)>, p: nat) {
    exists k :: 0 <= k < |c| && c[k].0 == p
  }

  lemma HasPositionAppend(c: seq<(nat, string)>, e: (nat, string), p: nat)
    ensures HasPosition(c + [e], p) <==> HasPosition(c, p) || e.0 == p
  {
    var c' := c + [e];
    if HasPosition(c', p) {
      var k :| 0 <= k < |c'| && c'[k].0 == p;
      if k < |c| { assert c[k] == c'[k]; }
    }
    if HasPosition(c, p) {
      var k :| 0 <= k < |c| && c[k].0 == p;
      assert c'[k] == c[k];
    }
    assert c'[|c|] == e;
  }

  /** The entry the last cell of a row adds when it qualifies. */
  function LastEntry(modelName: string, row: seq<Option<string>>): (nat, string)
    requires |row| > 0 && row[|row| - 1].Some?
  {
    var init := row[..|row| - 1];
    (Filled(init) + 1, Decimal(|Candidates(modelName, init)| + 1) + ": " + row[|row| - 1].value)
  }

  /** The last cell of a row adds an entry at the next position exactly
      when it qualifies. */
  lemma CandidatesLast(modelName: string, row: seq<Option<string>>)
    requires |row| > 0
    ensures Qualifies(modelName, row[|row| - 1]) ==>
      Candidates(modelName, row) == Candidates(modelName, row[..|row| - 1]) + [LastEntry(modelName, row)]
    ensures !Qualifies(modelName, row[|row| - 1]) ==> Candidates(modelName, row) == Candidates(modelName, row[..|row| - 1])
  {
  }

  /** No recorded cell sits past the non-empty cells. */
  lemma NoPositionBeyond(modelName: string, row: seq<Option<string>>, p: nat)
    requires p > Filled(row)
    ensures !HasPosition(Candidates(modelName, row), p)
  {
    var c := Candidates(modelName, row);
    CandidatesShape(modelName, row);
    forall k | 0 <= k < |c| ensures c[k].0 != p {
    }
  }

  /** The recorded cells are exactly the qualifying cells: a non-empty
      cell is recorded, at its position among the non-empty cells, if and
      only if it qualifies. */
  lemma {:induction false} CandidatesExact(modelName: string, row: seq<Option<string>>, i: nat)
    requires i < |row| && row[i].Some?
    ensures Qualifies(modelName, row[i]) <==> HasPosition(Candidates(modelName, row), Filled(row[..i]) + 1)
    decreases |row|
  {
    var n := |row|;
    var init := row[..n - 1];
    var c := Candidates(modelName, row);
    var c0 := Candidates(modelName, init);
    var p := Filled(row[..i]) + 1;
    var q := Qualifies(modelName, row[n - 1]);
    var last := if row[n - 1].Some? then LastEntry(modelName, row) else (0, "");
    assert q ==> c == c0 + [last] by {
      CandidatesLast(modelName, row);
    }
    assert !q ==> c == c0 by {
      CandidatesLast(modelName, row);
    }
    if i == n - 1 {
      assert p == Filled(init) + 1 by {
        assert row[..i] == init;
      }
      assert !HasPosition(c0, p) by {
        NoPositionBeyond(modelName, init, p);
      }
      if q {
        HasPositionAppend(c0, last, p);
      }
    } else {
      assert Qualifies(modelName, row[i]) <==> HasPosition(c0, p) by {
        assert init[i] == row[i] && init[..i] == row[..i];
        CandidatesExact(modelName, init, i);
      }
      if q {
        assert p <= Filled(init) by {
          FilledPrefix(init, i + 1);
          assert init[..i + 1][..i] == row[..i];
        }
        HasPositionAppend(c0, last, p);
      }
    }
  }

  /** Filled counts grow with the prefix. */
  lemma {:induction false} FilledPrefix(row: seq<Option<string>>, i: nat)
    requires i <= |row|
    ensures Filled(row[..i]) <= Filled(row)
    decreases |row|
  {
    if i < |row| {
      FilledPrefix(row[..|row| - 1], i);
      assert row[..|row| - 1][..i] == row[..i];
    } else {
      assert row[..i] == row;
    }
  }

  /** What `find_project_name` does with one sheet: nothing for the
      `ModelName…` sheets, a new column for the model name when no header
      cell qualifies, otherwise a choice among the recorded cells. */
  datatype SheetAction = Skip | InsertModelColumn | Choose(candidates: seq<(nat, string)>)

  /** The action for one sheet, given its name and its first row. */
  function SheetActionFor(modelName: string, sheetName: string, header: seq<Option<string>>): (r: SheetAction)
    ensures r.Skip? <==> StartsWith(sheetName, "ModelName")
    ensures r == InsertModelColumn <==> !StartsWith(sheetName, "ModelName") && Candidates(modelName, header) == []
    ensures r.Choose? ==> r.candidates == Candidates(modelName, header) && r.candidates != []
  {
    if StartsWith(sheetName, "ModelName") then Skip
    else
      var c := Candidates(modelName, header);
      if c == [] then InsertModelColumn else Choose(c)
  }

  /** The header column the user's answer selects, as the script indexes
      it: `all_project_name[selected_index - 1]` with Python's negative
      indices, after `get_selected_index` has refused answers above the
      number of candidates. An answer of 0 picks the last candidate. */
  function SelectedColumn(candidates: seq<(nat, string)>, selected: int): (r: Option<nat>)
    requires selected <= |candidates|
    ensures r.Some? <==> 1 - |candidates| <= selected
    ensures r.Some? ==> exists i :: 0 <= i < |candidates| && r.value == candidates[i].0
  {
    var k := selected - 1;
    if 0 <= k then Some(candidates[k].0)
    else if -|candidates| <= k then Some(candidates[|candidates| + k].0)
    else None
  }

  /** The answer `0` is accepted and selects the last candidate. */
  lemma ZeroSelectsLast(candidates: seq<(nat, string)>)
    requires |candidates| > 0
    ensures SelectedColumn(candidates, 0) == Some(candidates[|candidates| - 1].0)
  {
  }

  /** The intended selection: only answers `1..n` pick a candidate. */
  function SelectColumn(candidates: seq<(nat, string)>, selected: int): (r: Option<nat>)
    ensures r.Some? <==> 1 <= selected <= |candidates|
    ensures r.Some? ==> r.value == candidates[selected - 1].0
  {
    if 1 <= selected <= |candidates| then Some(candidates[selected - 1].0) else None
  }

  /** The two agree on every answer from 1 to the number of candidates and
      differ from 0 down. */
  lemma SelectionsAgreeOnValidAnswers(candidates: seq<(nat, string)>, selected: int)
    requires selected <= |candidates|
    ensures 1 <= selected ==> SelectedColumn(candidates, selected) == SelectColumn(candidates, selected)
    ensures selected < 1 ==> SelectColumn(candidates, selected) == None
    ensures selected < 1 && |candidates| > 0 && -|candidates| < selected ==> SelectedColumn(candidates, selected).Some?
  {
  }
}
