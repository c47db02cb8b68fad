/** The line-based text merge of the client: a dynamic-programming longest
    common subsequence, and the flattening of diff3 blocks into text with
    conflict markers. The diff3 algorithm itself (a library) is a parameter;
    lemmas state what the merge guarantees given what diff3 guarantees. */
module Merge {
  import opened Common
  import opened Strings

  type Line = string

  /** `x` is a (not necessarily contiguous) subsequence of `y`, matched
      greedily from the end. */
  predicate IsSubseq(x: seq<Line>, y: seq<Line>)
    decreases |y|
  {
    if |x| == 0 then true
    else if |y| == 0 then false
    else if x[|x| - 1] == y[|y| - 1] then IsSubseq(x[..|x| - 1], y[..|y| - 1])
    else IsSubseq(x, y[..|y| - 1])
  }

  /** The dynamic-programming table of the source: the length of a longest
      common subsequence of `a[..i]` and `b[..j]`. */
  function LcsLen(a: seq<Line>, b: seq<Line>, i: nat, j: nat): nat
    requires i <= |a| && j <= |b|
  {
    if i == 0 || j == 0 then 0
    else if a[i - 1] == b[j - 1] then LcsLen(a, b, i - 1, j - 1) + 1
    else Max(LcsLen(a, b, i - 1, j), LcsLen(a, b, i, j - 1))
  }

  /** The backward walk over the table that rebuilds the subsequence, with the
      source's tie-breaking (step in `b` unless the row above is strictly
      better). */
  function LcsFrom(a: seq<Line>, b: seq<Line>, i: nat, j: nat): (r: seq<Line>)
    requires i <= |a| && j <= |b|
    ensures |r| == LcsLen(a, b, i, j)
    ensures IsSubseq(r, a[..i]) && IsSubseq(r, b[..j])
  {
    if i == 0 || j == 0 then []
    else if a[i - 1] == b[j - 1] then
      var p := LcsFrom(a, b, i - 1, j - 1);
      assert a[..i][..i - 1] == a[..i - 1] && b[..j][..j - 1] == b[..j - 1];
      assert (p + [a[i - 1]])[..|p|] == p;
      p + [a[i - 1]]
    else if LcsLen(a, b, i - 1, j) > LcsLen(a, b, i, j - 1) then
      var p := LcsFrom(a, b, i - 1, j);
      SubseqAppend(p, a[..i - 1], a[i - 1]);
      assert a[..i - 1] + [a[i - 1]] == a[..i];
      p
    else
      var p := LcsFrom(a, b, i, j - 1);
      SubseqAppend(p, b[..j - 1], b[j - 1]);
      assert b[..j - 1] + [b[j - 1]] == b[..j];
      p
  }

  /** `longestCommonSubsequence(a, b)` as a mathematical function. */
  function Lcs(a: seq<Line>, b: seq<Line>): (r: seq<Line>)
    ensures IsSubseq(r, a) && IsSubseq(r, b)
    ensures |r| == LcsLen(a, b, |a|, |b|)
  {
    assert a[..|a|] == a && b[..|b|] == b;
    LcsFrom(a, b, |a|, |b|)
  }

  lemma {:induction false} SubseqAppend(x: seq<Line>, y: seq<Line>, e: Line)
    requires IsSubseq(x, y)
    ensures IsSubseq(x, y + [e])
    decreases |x| + |y|, 1
  {
    var y' := y + [e];
    assert y'[..|y'| - 1] == y;
    if |x| > 0 && x[|x| - 1] == e {
      SubseqInit(x, y);
    }
  }

  lemma {:induction false} SubseqInit(x: seq<Line>, y: seq<Line>)
    requires |x| > 0 && IsSubseq(x, y)
    ensures IsSubseq(x[..|x| - 1], y)
    decreases |x| + |y|, 0
  {
    var x', y' := x[..|x| - 1], y[..|y| - 1];
    if x[|x| - 1] == y[|y| - 1] {
      SubseqAppend(x', y', y[|y| - 1]);
    } else {
      SubseqInit(x, y');
      SubseqAppend(x', y', y[|y| - 1]);
    }
    assert y' + [y[|y| - 1]] == y;
  }

  lemma {:induction false} SubseqLength(x: seq<Line>, y: seq<Line>)
    requires IsSubseq(x, y)
    ensures |x| <= |y|
    ensures |x| == |y| ==> x == y
    decreases |y|
  {
    if |x| > 0 {
      if x[|x| - 1] == y[|y| - 1] {
        SubseqLength(x[..|x| - 1], y[..|y| - 1]);
        if |x| == |y| {
          assert x == x[..|x| - 1] + [x[|x| - 1]];
          assert y == y[..|y| - 1] + [y[|y| - 1]];
        }
      } else {
        SubseqLength(x, y[..|y| - 1]);
      }
    }
  }

  lemma {:induction false} SubseqRefl(x: seq<Line>)
    ensures IsSubseq(x, x)
    decreases |x|
  {
    if |x| > 0 {
      SubseqRefl(x[..|x| - 1]);
    }
  }

  /** No common subsequence of `a[..i]` and `b[..j]` is longer than the table
      entry: the table holds the optimum. */
  lemma {:induction false} LcsOptimal(a: seq<Line>, b: seq<Line>, i: nat, j: nat, c: seq<Line>)
    requires i <= |a| && j <= |b|
    requires IsSubseq(c, a[..i]) && IsSubseq(c, b[..j])
    ensures |c| <= LcsLen(a, b, i, j)
    decreases i + j
  {
    if |c| > 0 {
      assert i > 0 && j > 0;
      var x := c[|c| - 1];
      assert a[..i][..i - 1] == a[..i - 1] && b[..j][..j - 1] == b[..j - 1];
      if a[i - 1] == b[j - 1] {
        if x == a[i - 1] {
          LcsOptimal(a, b, i - 1, j - 1, c[..|c| - 1]);
        } else {
          LcsOptimal(a, b, i - 1, j - 1, c);
        }
      } else if x != a[i - 1] {
        LcsOptimal(a, b, i - 1, j, c);
      } else {
        LcsOptimal(a, b, i, j - 1, c);
      }
    }
  }

  /** When one input is a subsequence of the other, the LCS is that input
      (this covers equal inputs, and the repository's unit-test examples where one
      side only deleted lines). */
  lemma LcsOfSubsequence(a: seq<Line>, b: seq<Line>)
    ensures IsSubseq(b, a) ==> Lcs(a, b) == b
    ensures IsSubseq(a, b) ==> Lcs(a, b) == a
  {
    var r := Lcs(a, b);
    assert a[..|a|] == a && b[..|b|] == b;
    if IsSubseq(b, a) {
      SubseqRefl(b);
      LcsOptimal(a, b, |a|, |b|, b);
      SubseqLength(r, b);
    }
    if IsSubseq(a, b) {
      SubseqRefl(a);
      LcsOptimal(a, b, |a|, |b|, a);
      SubseqLength(r, a);
    }
  }

  /** On equal inputs the LCS is the input itself. */
  lemma LcsSelf(a: seq<Line>)
    ensures Lcs(a, a) == a
  {
    SubseqRefl(a);
    LcsOfSubsequence(a, a);
  }

  /** The table-filling half of `longestCommonSubsequence`, one row at a
      time. */
  method LcsTable(a: seq<Line>, b: seq<Line>) returns (dp: seq<seq<nat>>)
    ensures |dp| == |a| + 1
    ensures forall i :: 0 <= i <= |a| ==> |dp[i]| == |b| + 1
    ensures forall i, j {:trigger dp[i][j]} :: 0 <= i <= |a| && 0 <= j <= |b| ==> dp[i][j] == LcsLen(a, b, i, j)
  {
    dp := [seq(|b| + 1, _ => 0)];
    var i := 1;
    while i <= |a|
      invariant 1 <= i <= |a| + 1 && |dp| == i
      invariant forall ii :: 0 <= ii < i ==> |dp[ii]| == |b| + 1
      invariant forall ii, jj {:trigger dp[ii][jj]} :: 0 <= ii < i && 0 <= jj <= |b| ==> dp[ii][jj] == LcsLen(a, b, ii, jj)
    {
      var row: seq<nat> := [0];
      var j := 1;
      while j <= |b|
        invariant 1 <= j <= |b| + 1 && |row| == j
        invariant forall jj {:trigger row[jj]} :: 0 <= jj < j ==> row[jj] == LcsLen(a, b, i, jj)
      {
        var v := if a[i - 1] == b[j - 1] then dp[i - 1][j - 1] + 1 else Max(dp[i - 1][j], row[j - 1]);
        assert v == LcsLen(a, b, i, j);
        row := row + [v];
        j := j + 1;
      }
      assert forall jj {:trigger row[jj]} :: 0 <= jj <= |b| ==> row[jj] == LcsLen(a, b, i, jj);
      dp := dp + [row];
      i := i + 1;
    }
  }

  /** One step of the backward walk, with the part already rebuilt appended. */
  lemma LcsStep(a: seq<Line>, b: seq<Line>, i: nat, j: nat, rest: seq<Line>)
    requires 0 < i <= |a| && 0 < j <= |b|
    ensures a[i - 1] == b[j - 1] ==>
      LcsFrom(a, b, i, j) + rest == LcsFrom(a, b, i - 1, j - 1) + ([a[i - 1]] + rest)
    ensures a[i - 1] != b[j - 1] && LcsLen(a, b, i - 1, j) > LcsLen(a, b, i, j - 1) ==>
      LcsFrom(a, b, i, j) == LcsFrom(a, b, i - 1, j)
    ensures a[i - 1] != b[j - 1] && LcsLen(a, b, i - 1, j) <= LcsLen(a, b, i, j - 1) ==>
      LcsFrom(a, b, i, j) == LcsFrom(a, b, i, j - 1)
  {
    if a[i - 1] == b[j - 1] {
      assert LcsFrom(a, b, i, j) == LcsFrom(a, b, i - 1, j - 1) + [a[i - 1]];
    }
  }

  /** The reconstruction half of `longestCommonSubsequence`: walks a filled
      table back from the corner. */
  method LcsWalk(a: seq<Line>, b: seq<Line>, dp: seq<seq<nat>>) returns (lcs: seq<Line>)
    requires |dp| == |a| + 1
    requires forall i :: 0 <= i <= |a| ==> |dp[i]| == |b| + 1
    requires forall i, j {:trigger dp[i][j]} :: 0 <= i <= |a| && 0 <= j <= |b| ==> dp[i][j] == LcsLen(a, b, i, j)
    ensures lcs == LcsFrom(a, b, |a|, |b|)
  {
    lcs := [];
    var i, j := |a|, |b|;
    ghost var total := LcsFrom(a, b, |a|, |b|);
    while i > 0 && j > 0
      invariant 0 <= i <= |a| && 0 <= j <= |b|
      invariant total == LcsFrom(a, b, i, j) + lcs
      decreases i + j
    {
      LcsStep(a, b, i, j, lcs);
      assert dp[i - 1][j] == LcsLen(a, b, i - 1, j) && dp[i][j - 1] == LcsLen(a, b, i, j - 1);
      if a[i - 1] == b[j - 1] {
        lcs := [a[i - 1]] + lcs;
        i, j := i - 1, j - 1;
      } else if dp[i - 1][j] > dp[i][j - 1] {
        i := i - 1;
      } else {
        j := j - 1;
      }
    }
    assert LcsFrom(a, b, i, j) == [];
  }

  /** `longestCommonSubsequence`: fills the table bottom-up, then walks it back
      from the corner. */
  method LongestCommonSubsequence(a: seq<Line>, b: seq<Line>) returns (lcs: seq<Line>)
    ensures IsSubseq(lcs, a) && IsSubseq(lcs, b)
    ensures forall c :: IsSubseq(c, a) && IsSubseq(c, b) ==> |c| <= |lcs|
    ensures lcs == Lcs(a, b)
  {
    var dp := LcsTable(a, b);
    lcs := LcsWalk(a, b, dp);
    assert lcs == Lcs(a, b);
    assert a[..|a|] == a && b[..|b|] == b;
    forall c | IsSubseq(c, a) && IsSubseq(c, b) ensures |c| <= |lcs| {
      LcsOptimal(a, b, |a|, |b|, c);
    }
  }

  /** A diff3 output block: lines both sides agree on, or a conflict carrying
      the local (`a`), ancestor (`o`) and server (`b`) lines. */
  datatype Block = OkBlock(ok: seq<Line>) | ConflictBlock(a: seq<Line>, o: seq<Line>, b: seq<Line>)

  /** `diff3Merge(local, ancestor, server)` from the diff3 library. */
  type Diff3 = (seq<Line>, seq<Line>, seq<Line>) -> seq<Block>

  const LocalMarker: Line := "<<<<<<< LOCAL"
  const Separator: Line := "======="
  const ServerMarker: Line := ">>>>>>> SERVER"

  function BlockLines(block: Block): seq<Line> {
    match block
    case OkBlock(ok) => ok
    case ConflictBlock(a, _, b) => [LocalMarker] + a + [Separator] + b + [ServerMarker]
  }

  /** The `flatMap` over the blocks. */
  function Flatten(blocks: seq<Block>): seq<Line> {
    if |blocks| == 0 then [] else BlockLines(blocks[0]) + Flatten(blocks[1..])
  }

  /** Blocks are emitted in order: flattening distributes over concatenation. */
  lemma {:induction false} FlattenAppend(x: seq<Block>, y: seq<Block>)
    ensures Flatten(x + y) == Flatten(x) + Flatten(y)
  {
    if |x| > 0 {
      assert (x + y)[1..] == x[1..] + y;
      FlattenAppend(x[1..], y);
    } else {
      assert x + y == y;
    }
  }

  /** The ancestor handed to diff3: the split base text, or when there is no
      base, a longest common subsequence of the two sides. */
  function Ancestor(base: Option<string>, localLines: seq<Line>, serverLines: seq<Line>): (r: seq<Line>)
    ensures base.Some? ==> Join(r, '\n') == base.value && |r| >= 1
    ensures base.None? ==> IsSubseq(r, localLines) && IsSubseq(r, serverLines)
    ensures base.None? ==> |r| == LcsLen(localLines, serverLines, |localLines|, |serverLines|)
  {
    match base
    case None => Lcs(localLines, serverLines)
    case Some(t) => JoinSplit(t, '\n'); Split(t, '\n')
  }

  /** `threeWayMerge(baseText, localText, serverText)`. */
  function ThreeWayMerge(diff3: Diff3, base: Option<string>, local: string, server: string): string {
    var localLines := Split(local, '\n');
    var serverLines := Split(server, '\n');
    Join(Flatten(diff3(localLines, Ancestor(base, localLines, serverLines), serverLines)), '\n')
  }

  /** `twoWayMerge(serverText, localText)`: note the swapped argument order. */
  function TwoWayMerge(diff3: Diff3, server: string, local: string): (r: string)
    ensures r == ThreeWayMerge(diff3, None, local, server)
  {
    ThreeWayMerge(diff3, None, local, server)
  }

  /** What the callers rely on from diff3: when one side equals the ancestor,
      the merge is the other side. */
  ghost predicate OneSidedChangesWin(diff3: Diff3) {
    forall a, o, b :: (a == o ==> Flatten(diff3(a, o, b)) == b) && (b == o ==> Flatten(diff3(a, o, b)) == a)
  }

  /** Merging a text with itself gives it back. */
  lemma MergeIdentity(diff3: Diff3, x: string)
    requires OneSidedChangesWin(diff3)
    ensures ThreeWayMerge(diff3, Some(x), x, x) == x
    ensures TwoWayMerge(diff3, x, x) == x
  {
    var lines := Split(x, '\n');
    JoinSplit(x, '\n');
    LcsSelf(lines);
    assert Flatten(diff3(lines, lines, lines)) == lines;
  }

  /** A change made on one side only is taken from that side. */
  lemma MergeOneSided(diff3: Diff3, base: string, local: string, server: string)
    requires OneSidedChangesWin(diff3)
    ensures ThreeWayMerge(diff3, Some(base), base, server) == server
    ensures ThreeWayMerge(diff3, Some(base), local, base) == local
  {
    var bl, ll, sl := Split(base, '\n'), Split(local, '\n'), Split(server, '\n');
    JoinSplit(server, '\n');
    JoinSplit(local, '\n');
    assert Flatten(diff3(bl, bl, sl)) == sl;
    assert Flatten(diff3(ll, bl, bl)) == ll;
  }

  /** Without a base, a side whose lines are a subsequence of the other side's
      lines (it only lacks some lines) yields the other side. */
  lemma TwoWayMergeInsertions(diff3: Diff3, server: string, local: string)
    requires OneSidedChangesWin(diff3)
    ensures IsSubseq(Split(local, '\n'), Split(server, '\n')) ==> TwoWayMerge(diff3, server, local) == server
    ensures IsSubseq(Split(server, '\n'), Split(local, '\n')) ==> TwoWayMerge(diff3, server, local) == local
  {
    var ll, sl := Split(local, '\n'), Split(server, '\n');
    LcsOfSubsequence(ll, sl);
    JoinSplit(server, '\n');
    JoinSplit(local, '\n');
    if IsSubseq(ll, sl) {
      assert Flatten(diff3(ll, ll, sl)) == sl;
    }
    if IsSubseq(sl, ll) {
      assert Flatten(diff3(ll, sl, sl)) == ll;
    }
  }

  predicate NoNewlines(lines: seq<Line>) {
    forall i :: 0 <= i < |lines| ==> '\n' !in lines[i]
  }

  /** The lines diff3 handed back have no newline in them, so joining them
      loses nothing. */
  predicate BlockNoNewlines(block: Block) {
    match block
    case OkBlock(ok) => NoNewlines(ok)
    case ConflictBlock(a, _, b) => NoNewlines(a) && NoNewlines(b)
  }

  lemma {:induction false} FlattenNoNewlines(blocks: seq<Block>)
    requires forall i :: 0 <= i < |blocks| ==> BlockNoNewlines(blocks[i])
    ensures NoNewlines(Flatten(blocks))
  {
    if |blocks| > 0 {
      FlattenNoNewlines(blocks[1..]);
      var head, rest := BlockLines(blocks[0]), Flatten(blocks[1..]);
      assert NoNewlines(head) by {
        match blocks[0]
        case OkBlock(_) =>
        case ConflictBlock(a, _, b) =>
          forall i | 0 <= i < |head| ensures '\n' !in head[i] {
            if 0 < i <= |a| {
              assert head[i] == a[i - 1];
            } else if |a| + 1 < i < |a| + 2 + |b| {
              assert head[i] == b[i - |a| - 2];
            }
          }
      }
      forall i | 0 <= i < |head + rest| ensures '\n' !in (head + rest)[i] {
        if i >= |head| {
          assert (head + rest)[i] == rest[i - |head|];
        }
      }
    }
  }

  /** The merged text, read back line by line, is the blocks rendered in
      order: agreed lines verbatim, each conflict as the LOCAL marker, the
      local lines, the separator, the server lines and the SERVER marker. An
      empty rendering is the empty text. */
  lemma MergeRendering(diff3: Diff3, base: Option<string>, local: string, server: string)
    requires var ll, sl := Split(local, '\n'), Split(server, '\n');
      var blocks := diff3(ll, Ancestor(base, ll, sl), sl);
      forall i :: 0 <= i < |blocks| ==> BlockNoNewlines(blocks[i])
    ensures var ll, sl := Split(local, '\n'), Split(server, '\n');
      var lines := Flatten(diff3(ll, Ancestor(base, ll, sl), sl));
      (|lines| == 0 ==> ThreeWayMerge(diff3, base, local, server) == "") &&
      (|lines| > 0 ==> Split(ThreeWayMerge(diff3, base, local, server), '\n') == lines)
  {
    var ll, sl := Split(local, '\n'), Split(server, '\n');
    var lines := Flatten(diff3(ll, Ancestor(base, ll, sl), sl));
    FlattenNoNewlines(diff3(ll, Ancestor(base, ll, sl), sl));
    if |lines| > 0 {
      SplitJoin(lines, '\n');
    }
  }

  /** A single conflict between two agreed runs, as an instance. */
  lemma ConflictRendering(diff3: Diff3, base: string, local: string, server: string,
                          pre: seq<Line>, a: seq<Line>, o: seq<Line>, b: seq<Line>, post: seq<Line>)
    requires diff3(Split(local, '\n'), Split(base, '\n'), Split(server, '\n'))
             == [OkBlock(pre), ConflictBlock(a, o, b), OkBlock(post)]
    requires NoNewlines(pre) && NoNewlines(a) && NoNewlines(b) && NoNewlines(post)
    ensures Split(ThreeWayMerge(diff3, Some(base), local, server), '\n')
            == pre + [LocalMarker] + a + [Separator] + b + [ServerMarker] + post
  {
    var out := pre + [LocalMarker] + a + [Separator] + b + [ServerMarker] + post;
    var blocks := [OkBlock(pre), ConflictBlock(a, o, b), OkBlock(post)];
    assert Flatten(blocks) == out by {
      var rest := [ConflictBlock(a, o, b), OkBlock(post)];
      assert blocks[1..] == rest && rest[1..] == [OkBlock(post)];
      assert Flatten([OkBlock(post)]) == post by {
        assert [OkBlock(post)][1..] == [];
      }
      assert Flatten(rest) == [LocalMarker] + a + [Separator] + b + [ServerMarker] + post;
    }
    assert forall i :: 0 <= i < |blocks| ==> BlockNoNewlines(blocks[i]);
    MergeRendering(diff3, Some(base), local, server);
  }
}
