/** Levenshtein distance: the unit-cost insert/delete/substitute edit
    distance, and the single-row dynamic programme the client uses to rank
    search matches, with its shortcuts (equal strings, common prefix and
    suffix, very short remainders). The programme compares `charCodeAt`
    values, so it works on the UTF-16 encodings of the texts; lower-casing
    is an abstract per-character map applied before encoding. */
module Levenshtein {
  import opened Strings

  function Min3(x: int, y: int, z: int): int {
    if x <= y && x <= z then x else if y <= z then y else z
  }

  /** The edit distance, by the last characters of both strings. */
  function Dist(a: seq<CodeUnit>, b: seq<CodeUnit>): (d: nat)
    decreases |a| + |b|
  {
    if |a| == 0 then |b|
    else if |b| == 0 then |a|
    else
      var a1, b1 := a[..|a| - 1], b[..|b| - 1];
      Min3(Dist(a1, b) + 1, Dist(a, b1) + 1, Dist(a1, b1) + (if a[|a| - 1] == b[|b| - 1] then 0 else 1))
  }

  /** Deleting the last unit of either sequence costs at most one edit. */
  lemma DistDropLast(a: seq<CodeUnit>, b: seq<CodeUnit>)
    ensures |a| > 0 ==> Dist(a, b) <= Dist(a[..|a| - 1], b) + 1
    ensures |b| > 0 ==> Dist(a, b) <= Dist(a, b[..|b| - 1]) + 1
  {
  }

  /** The distance is symmetric. */
  lemma {:induction false} DistSymmetric(a: seq<CodeUnit>, b: seq<CodeUnit>)
    ensures Dist(a, b) == Dist(b, a)
    decreases |a| + |b|
  {
    if |a| > 0 && |b| > 0 {
      var a1, b1 := a[..|a| - 1], b[..|b| - 1];
      DistSymmetric(a1, b);
      DistSymmetric(a, b1);
      DistSymmetric(a1, b1);
    }
  }

  /** The distance lies between the length difference and the longer
      length. */
  lemma {:induction false} DistBounds(a: seq<CodeUnit>, b: seq<CodeUnit>)
    ensures Dist(a, b) >= |a| - |b| && Dist(a, b) >= |b| - |a|
    ensures Dist(a, b) <= if |a| >= |b| then |a| else |b|
    decreases |a| + |b|
  {
    if |a| > 0 && |b| > 0 {
      var a1, b1 := a[..|a| - 1], b[..|b| - 1];
      DistBounds(a1, b);
      DistBounds(a, b1);
      DistBounds(a1, b1);
    }
  }

  lemma {:induction false} DistSelf(a: seq<CodeUnit>)
    ensures Dist(a, a) == 0
    decreases |a|
  {
    if |a| > 0 {
      DistSelf(a[..|a| - 1]);
    }
  }

  /** The distance is zero exactly between equal strings. */
  lemma {:induction false} DistZeroIffEqual(a: seq<CodeUnit>, b: seq<CodeUnit>)
    ensures Dist(a, b) == 0 <==> a == b
    decreases |a| + |b|
  {
    DistSelf(a);
    if |a| > 0 && |b| > 0 && Dist(a, b) == 0 {
      var a1, b1 := a[..|a| - 1], b[..|b| - 1];
      assert a == a1 + [a[|a| - 1]] && b == b1 + [b[|b| - 1]];
      DistZeroIffEqual(a1, b1);
    }
  }

  /** Appending one unit to one sequence changes the distance by at
      most one. */
  lemma {:induction false} DistAppendOne(a: seq<CodeUnit>, b: seq<CodeUnit>, c: CodeUnit)
    ensures Dist(a, b) <= Dist(a, b + [c]) + 1
    decreases |a| + |b|
  {
    var bc := b + [c];
    assert bc[..|bc| - 1] == b;
    if |a| > 0 {
      var a1 := a[..|a| - 1];
      DistAppendOne(a1, b, c);
      DistDropLast(a, b);
    }
  }

  /** A common last character can be dropped. */
  lemma CommonSuffix(a: seq<CodeUnit>, b: seq<CodeUnit>, c: CodeUnit)
    ensures Dist(a + [c], b + [c]) == Dist(a, b)
  {
    var ac, bc := a + [c], b + [c];
    assert ac[..|ac| - 1] == a && bc[..|bc| - 1] == b;
    DistAppendOne(a, b, c);
    DistSymmetric(a, bc);
    DistSymmetric(b, a);
    DistAppendOne(b, a, c);
    DistSymmetric(ac, b);
  }

  /** A common first character can be dropped. */
  lemma {:induction false} CommonPrefix(a: seq<CodeUnit>, b: seq<CodeUnit>, c: CodeUnit)
    ensures Dist([c] + a, [c] + b) == Dist(a, b)
    decreases |a| + |b|
  {
    var ca, cb := [c] + a, [c] + b;
    if |a| == 0 && |b| == 0 {
      assert ca[..0] == [] && cb[..0] == [];
    } else if |a| == 0 {
      assert ca == [c];
      PrefixEmptyLeft(b, c);
    } else if |b| == 0 {
      assert cb == [c];
      PrefixEmptyLeft(a, c);
      DistSymmetric(ca, [c]);
    } else {
      var a1, b1 := a[..|a| - 1], b[..|b| - 1];
      assert ca[..|ca| - 1] == [c] + a1 && ca[|ca| - 1] == a[|a| - 1];
      assert cb[..|cb| - 1] == [c] + b1 && cb[|cb| - 1] == b[|b| - 1];
      var cost := if a[|a| - 1] == b[|b| - 1] then 0 else 1;
      assert Dist(ca, cb) == Min3(Dist([c] + a1, cb) + 1, Dist(ca, [c] + b1) + 1, Dist([c] + a1, [c] + b1) + cost);
      CommonPrefix(a1, b, c);
      CommonPrefix(a, b1, c);
      CommonPrefix(a1, b1, c);
    }
  }

  /** The case of `CommonPrefix` where the first sequence is just `c`. */
  lemma {:induction false} PrefixEmptyLeft(b: seq<CodeUnit>, c: CodeUnit)
    requires |b| > 0
    ensures Dist([c], [c] + b) == |b|
    decreases |b|
  {
    var cb := [c] + b;
    var b1 := b[..|b| - 1];
    assert cb[..|cb| - 1] == [c] + b1;
    assert [c][..0] == [];
    DistBounds([c], cb);
    if |b1| == 0 {
      assert [c] + b1 == [c];
      DistSelf([c]);
    } else {
      PrefixEmptyLeft(b1, c);
    }
    assert Dist([c], cb) == Min3(Dist([], cb) + 1, Dist([c], [c] + b1) + 1,
                                 Dist([], [c] + b1) + (if c == b[|b| - 1] then 0 else 1));
  }

  /** The shortcut for short remainders: when the remainders differ in their
      first and last characters and the longer one has fewer than three
      characters, the distance is the longer length. */
  lemma ShortRemainder(a: seq<CodeUnit>, b: seq<CodeUnit>)
    requires 1 <= |a| <= |b| < 3
    requires a[0] != b[0] && a[|a| - 1] != b[|b| - 1]
    ensures Dist(a, b) == |b|
  {
    DistBounds(a, b);
    if |b| == 2 {
      var b1 := b[..1];
      if |a| == 1 {
        assert Dist(a, b1) == 1;
        assert a[..0] == [] && b1[..0] == [];
        assert Dist(a[..0], b1) == 1;
      } else {
        var a1 := a[..1];
        assert a1[..0] == [] && b1[..0] == [];
        assert Dist(a1, b1) == 1;
        assert Dist(a1, b) >= 1 by { DistBounds(a1, b); }
        assert Dist(a, b1) >= 1 by { DistBounds(a, b1); }
      }
    } else {
      assert a[..0] == [] && b[..0] == [];
    }
  }

  /** `_min`: the recurrence step the source writes with two comparisons
      instead of a three-way minimum. `d1` is the diagonal neighbour. */
  function StepMin(d0: int, d1: int, d2: int, bx: CodeUnit, ay: CodeUnit): (r: int)
    ensures r == Min3(d0 + 1, d2 + 1, d1 + (if bx == ay then 0 else 1))
  {
    if d0 < d1 || d2 < d1 then (if d0 > d2 then d2 + 1 else d0 + 1)
    else if bx == ay then d1 else d1 + 1
  }

  /** The distance between two strings with the prefix of `a` and `b` of
      length `offset` and everything past `la` / `lb` removed. */
  function Core(a: seq<CodeUnit>, b: seq<CodeUnit>, offset: nat, la: nat, lb: nat): nat
    requires offset <= la <= |a| && offset <= lb <= |b|
  {
    Dist(a[offset..la], b[offset..lb])
  }

  /** The suffix-stripping loop: afterwards `a[..la]` and `b[..lb]` are as
      far apart as `a` and `b`, and their last characters differ unless
      `la` is 0. */
  method StripSuffix(a: seq<CodeUnit>, b: seq<CodeUnit>) returns (la: nat, lb: nat)
    requires |a| <= |b|
    ensures la <= lb && la <= |a| && lb <= |b| && lb - la == |b| - |a|
    ensures Dist(a[..la], b[..lb]) == Dist(a, b)
    ensures la > 0 ==> a[la - 1] != b[lb - 1]
  {
    la, lb := |a|, |b|;
    assert a[..la] == a && b[..lb] == b;
    while la > 0 && a[la - 1] == b[lb - 1]
      invariant 0 <= la <= lb <= |b| && la <= |a| && lb - la == |b| - |a|
      invariant Dist(a[..la], b[..lb]) == Dist(a, b)
    {
      SuffixStep(a, b, la, lb);
      la, lb := la - 1, lb - 1;
    }
  }

  lemma SuffixStep(a: seq<CodeUnit>, b: seq<CodeUnit>, la: nat, lb: nat)
    requires 0 < la <= |a| && 0 < lb <= |b| && a[la - 1] == b[lb - 1]
    ensures Dist(a[..la - 1], b[..lb - 1]) == Dist(a[..la], b[..lb])
  {
    assert a[..la] == a[..la - 1] + [a[la - 1]];
    assert b[..lb] == b[..lb - 1] + [b[lb - 1]];
    CommonSuffix(a[..la - 1], b[..lb - 1], a[la - 1]);
  }

  /** The prefix-stripping loop over `a[..la]` and `b[..lb]`. */
  method StripPrefix(a: seq<CodeUnit>, b: seq<CodeUnit>, la: nat, lb: nat) returns (offset: nat)
    requires la <= lb && la <= |a| && lb <= |b|
    ensures offset <= la
    ensures Core(a, b, offset, la, lb) == Dist(a[..la], b[..lb])
    ensures offset < la ==> a[offset] != b[offset]
  {
    offset := 0;
    assert a[0..la] == a[..la] && b[0..lb] == b[..lb];
    while offset < la && a[offset] == b[offset]
      invariant 0 <= offset <= la
      invariant Core(a, b, offset, la, lb) == Dist(a[..la], b[..lb])
    {
      PrefixStep(a, b, offset, la, lb);
      offset := offset + 1;
    }
  }

  lemma PrefixStep(a: seq<CodeUnit>, b: seq<CodeUnit>, offset: nat, la: nat, lb: nat)
    requires offset < la <= |a| && offset < lb <= |b| && a[offset] == b[offset]
    ensures Core(a, b, offset + 1, la, lb) == Core(a, b, offset, la, lb)
  {
    assert a[offset..la] == [a[offset]] + a[offset + 1..la];
    assert b[offset..lb] == [b[offset]] + b[offset + 1..lb];
    CommonPrefix(a[offset + 1..la], b[offset + 1..lb], a[offset]);
  }

  /** `row` is column `x` of the table: `row[y]` is the distance from the
      first `y + 1` units of `sa` to the first `x` of `sb`. The source keeps
      it in `vector`, interleaved with the units of `sa`. */
  predicate IsColumn(sa: seq<CodeUnit>, sb: seq<CodeUnit>, row: seq<nat>, x: nat)
    requires x <= |sb|
  {
    |row| == |sa| && forall y :: 0 <= y < |sa| ==> row[y] == Dist(sa[..y + 1], sb[..x])
  }

  /** The dynamic programme over the remainders (levenshtein.ts:53-93):
      four columns per pass while at least four remain, then one column per
      pass. */
  method Table(sa: seq<CodeUnit>, sb: seq<CodeUnit>) returns (dd: nat)
    requires |sa| >= 1 && |sb| >= 1
    ensures dd == Dist(sa, sb)
  {
    var n, m := |sa|, |sb|;
    var row: seq<nat> := seq(n, y => y + 1);
    assert IsColumn(sa, sb, row, 0) by {
      forall y | 0 <= y < n ensures row[y] == Dist(sa[..y + 1], sb[..0]) {
        assert sb[..0] == [];
      }
    }
    var x := 0;
    dd := 0;
    while x + 3 < m
      invariant 0 <= x <= m && IsColumn(sa, sb, row, x)
      invariant x > 0 ==> dd == Dist(sa, sb[..x])
    {
      row, dd := FourColumns(sa, sb, row, x);
      x := x + 4;
    }
    while x < m
      invariant 0 <= x <= m && IsColumn(sa, sb, row, x)
      invariant x > 0 ==> dd == Dist(sa, sb[..x])
    {
      row, dd := OneColumn(sa, sb, row, x);
      x := x + 1;
    }
    assert sb[..m] == sb;
  }

  /** One pass of the column-at-a-time loop (levenshtein.ts:83-91). */
  method OneColumn(sa: seq<CodeUnit>, sb: seq<CodeUnit>, row0: seq<nat>, x: nat) returns (row: seq<nat>, dd: nat)
    requires x < |sb| && IsColumn(sa, sb, row0, x)
    ensures IsColumn(sa, sb, row, x + 1)
    ensures dd == Dist(sa, sb[..x + 1])
  {
    var n := |sa|;
    row := row0;
    var bx := sb[x];
    var d0 := x;
    dd := x + 1;
    EdgeCells(sa, sb, x);
    var y := 0;
    while y < n
      invariant 0 <= y <= n && |row| == n
      invariant forall i :: 0 <= i < y ==> row[i] == Dist(sa[..i + 1], sb[..x + 1])
      invariant forall i :: y <= i < n ==> row[i] == Dist(sa[..i + 1], sb[..x])
      invariant d0 == Dist(sa[..y], sb[..x])
      invariant dd == Dist(sa[..y], sb[..x + 1])
    {
      var dy := row[y];
      CellStep(sa, sb, y, x, dy, d0, dd);
      dd := StepMin(dy, d0, dd, bx, sa[y]);
      row := row[y := dd];
      d0 := dy;
      y := y + 1;
    }
    assert sa[..n] == sa;
  }

  /** One pass of the four-columns-at-a-time loop (levenshtein.ts:62-81):
      `d0`..`d3` and `dd` hold row `y` of columns `x` to `x + 4`. */
  method FourColumns(sa: seq<CodeUnit>, sb: seq<CodeUnit>, row0: seq<nat>, x: nat) returns (row: seq<nat>, dd: nat)
    requires x + 4 <= |sb| && IsColumn(sa, sb, row0, x)
    ensures IsColumn(sa, sb, row, x + 4)
    ensures dd == Dist(sa, sb[..x + 4])
  {
    var n := |sa|;
    row := row0;
    var bx0, bx1, bx2, bx3 := sb[x], sb[x + 1], sb[x + 2], sb[x + 3];
    var d0, d1, d2, d3 := x, x + 1, x + 2, x + 3;
    dd := x + 4;
    EdgeCells(sa, sb, x);
    EdgeCells(sa, sb, x + 1);
    EdgeCells(sa, sb, x + 2);
    EdgeCells(sa, sb, x + 3);
    var y := 0;
    while y < n
      invariant 0 <= y <= n && |row| == n
      invariant forall i :: 0 <= i < y ==> row[i] == Dist(sa[..i + 1], sb[..x + 4])
      invariant forall i :: y <= i < n ==> row[i] == Dist(sa[..i + 1], sb[..x])
      invariant d0 == Dist(sa[..y], sb[..x]) && d1 == Dist(sa[..y], sb[..x + 1])
      invariant d2 == Dist(sa[..y], sb[..x + 2]) && d3 == Dist(sa[..y], sb[..x + 3])
      invariant dd == Dist(sa[..y], sb[..x + 4])
    {
      var dy, ay := row[y], sa[y];
      CellStep(sa, sb, y, x, dy, d0, d1);
      d0 := StepMin(dy, d0, d1, bx0, ay);
      CellStep(sa, sb, y, x + 1, d0, d1, d2);
      d1 := StepMin(d0, d1, d2, bx1, ay);
      CellStep(sa, sb, y, x + 2, d1, d2, d3);
      d2 := StepMin(d1, d2, d3, bx2, ay);
      CellStep(sa, sb, y, x + 3, d2, d3, dd);
      dd := StepMin(d2, d3, dd, bx3, ay);
      row := row[y := dd];
      d3, d2, d1, d0 := d2, d1, d0, dy;
      y := y + 1;
    }
    assert sa[..n] == sa;
  }

  /** The top edge of the table: the empty prefix of `sa` is `x` edits from
      the first `x` units of `sb`. */
  lemma EdgeCells(sa: seq<CodeUnit>, sb: seq<CodeUnit>, x: nat)
    requires x < |sb|
    ensures Dist(sa[..0], sb[..x]) == x && Dist(sa[..0], sb[..x + 1]) == x + 1
  {
  }

  /** One cell of the table from its left, diagonal and upper neighbours,
      as `_min` computes it. */
  lemma CellStep(sa: seq<CodeUnit>, sb: seq<CodeUnit>, y: nat, x: nat, left: int, diag: int, up: int)
    requires y < |sa| && x < |sb|
    requires left == Dist(sa[..y + 1], sb[..x]) && diag == Dist(sa[..y], sb[..x]) && up == Dist(sa[..y], sb[..x + 1])
    ensures StepMin(left, diag, up, sb[x], sa[y]) == Dist(sa[..y + 1], sb[..x + 1])
  {
    ColumnStep(sa, sb, y, x);
  }

  /** One cell of the table, by the definition of the distance. */
  lemma ColumnStep(sa: seq<CodeUnit>, sb: seq<CodeUnit>, y: nat, x: nat)
    requires y < |sa| && x < |sb|
    ensures Dist(sa[..y + 1], sb[..x + 1]) ==
      Min3(Dist(sa[..y + 1], sb[..x]) + 1, Dist(sa[..y], sb[..x + 1]) + 1,
           Dist(sa[..y], sb[..x]) + (if sb[x] == sa[y] then 0 else 1))
  {
    var p, q := sa[..y + 1], sb[..x + 1];
    assert p[..|p| - 1] == sa[..y] && q[..|q| - 1] == sb[..x];
    assert p[|p| - 1] == sa[y] && q[|q| - 1] == sb[x];
  }

  /** `levenshtein` after lower-casing, from the equality check on. */
  method Distance(a0: seq<CodeUnit>, b0: seq<CodeUnit>) returns (d: nat)
    ensures d == Dist(a0, b0)
  {
    var a, b := a0, b0;
    if a == b {
      DistSelf(a);
      return 0;
    }
    if |a| > |b| {
      DistSymmetric(a, b);
      a, b := b, a;
    }
    var la, lb := StripSuffix(a, b);
    var offset := StripPrefix(a, b, la, lb);
    var n, m := la - offset, lb - offset;
    if n == 0 || m < 3 {
      if n > 0 {
        assert a[offset..la][n - 1] == a[la - 1] && b[offset..lb][m - 1] == b[lb - 1];
        ShortRemainder(a[offset..la], b[offset..lb]);
      }
      return m;
    }
    d := Table(a[offset..la], b[offset..lb]);
  }

  function Lower(s: string, lower: char -> char): (r: string)
    ensures |r| == |s|
    ensures forall i :: 0 <= i < |s| ==> r[i] == lower(s[i])
  {
    if s == [] then [] else [lower(s[0])] + Lower(s[1..], lower)
  }

  /** `levenshtein(a, b, caseSensitive)`: the edit distance between the
      UTF-16 encodings of the strings, lower-cased unless `caseSensitive`. */
  method Compute(a: string, b: string, caseSensitive: bool, lower: char -> char) returns (d: nat)
    ensures caseSensitive ==> d == Dist(Utf16(a), Utf16(b))
    ensures !caseSensitive ==> d == Dist(Utf16(Lower(a, lower)), Utf16(Lower(b, lower)))
  {
    if caseSensitive {
      d := Distance(Utf16(a), Utf16(b));
    } else {
      d := Distance(Utf16(Lower(a, lower)), Utf16(Lower(b, lower)));
    }
  }

  /** A character above the Basic Multilingual Plane counts as two units:
      one emoji is two edits away from one letter, as in the source. */
  lemma AstralCountsTwice()
    ensures Dist(Utf16("\U{1F600}"), Utf16("a")) == 2
  {
    var e, a := Utf16("\U{1F600}"), Utf16("a");
    assert e == [0xD83D, 0xDE00] && a == [0x61];
    assert e[..1] == [0xD83D] && a[..0] == [];
    assert Dist(e[..1], a) == 1;
    assert Dist(e[..1][..0], a) == 1;
  }
}
