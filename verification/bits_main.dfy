/**
 * The program around the bit-packed engine: the choice of the number of
 * threads from the command line, the single-threaded run, and the run that
 * hands every W-th hand to each of W workers and then merges their results
 * round by round. The output stream is the text written so far.
 */
module BitsMain {
  import opened Tiles
  import opened Hands
  import opened Text
  import opened BitsEnumerate
  import opened BitsOptions

  // ---------------------------------------------------------------------
  // Output

  /** Sends every string of result to the stream, in order. */
  method WriteAll(os: string, result: seq<string>) returns (out: string)
    ensures out == os + Concat(result)
  {
    out := os;
    var i := 0;
    while i < |result|
      invariant i <= |result|
      invariant out == os + Concat(result[..i])
    {
      assert result[..i + 1][..i] == result[..i];
      out := out + result[i];
      i := i + 1;
    }
    assert result[..i] == result;
  }

  // ---------------------------------------------------------------------
  // Strides

  /** A worker with offset w out of W collects a block past its i-th exactly when block i * W + w exists. */
  lemma {:induction false} StridedLength(bs: seq<string>, w: nat, W: nat, i: nat)
    requires w < W
    ensures i < |Strided(bs, w, W)| <==> i * W + w < |bs|
    decreases |bs|, 0
  {
    if bs != [] {
      var n := |bs|;
      var front := bs[..n - 1];
      assert Strided(bs, w, W) == Strided(front, w, W) + (if PatternIndex(n - 1, W) == w then [bs[n - 1]] else []);
      PatternIndexMod(n - 1, W);
      StridedLength(front, w, W, i);
      var q, r := Divide(n - 1, W);
      if r == w {
        FullSlots(front, w, W, q);
        StepOrder(i, q, W);
      } else {
        ModUnique(i * W + w, i, w, W);
      }
    }
  }

  /** The quotient and remainder of x by W. */
  lemma Divide(x: nat, W: nat) returns (q: nat, r: nat)
    requires W > 0
    ensures x == q * W + r && r < W && x % W == r
  {
    q := x / W;
    r := x % W;
  }

  /** Up to block q * W + w, a worker with offset w has collected q blocks. */
  lemma {:induction false} FullSlots(bs: seq<string>, w: nat, W: nat, q: nat)
    requires w < W && |bs| == q * W + w
    ensures |Strided(bs, w, W)| == q
    decreases |bs|, 1
  {
    StridedLength(bs, w, W, q);
    if q > 0 {
      StridedLength(bs, w, W, q - 1);
      StepOrder(q - 1, q, W);
    }
  }

  /** The i-th block a worker with offset w out of W collects is block i * W + w. */
  lemma {:induction false} StridedAt(bs: seq<string>, w: nat, W: nat, i: nat)
    requires w < W && i < |Strided(bs, w, W)|
    ensures i * W + w < |bs| && Strided(bs, w, W)[i] == bs[i * W + w]
    decreases |bs|
  {
    StridedLength(bs, w, W, i);
    var n := |bs|;
    var front := bs[..n - 1];
    assert Strided(bs, w, W) == Strided(front, w, W) + (if PatternIndex(n - 1, W) == w then [bs[n - 1]] else []);
    if i < |Strided(front, w, W)| {
      StridedAt(front, w, W, i);
    } else {
      PatternIndexMod(n - 1, W);
      var q, r := Divide(n - 1, W);
      FullSlots(front, w, W, q);
    }
  }

  /** Multiplying by a positive step keeps the order of two indexes. */
  lemma StepOrder(i: nat, q: nat, W: nat)
    requires W > 0
    ensures i <= q <==> i * W <= q * W
    ensures i < q <==> i * W < q * W
  {
    if i <= q {
      var d := q - i;
      assert q * W == i * W + d * W;
    } else {
      var d := i - q;
      assert i * W == q * W + d * W;
    }
  }

  // ---------------------------------------------------------------------
  // Merging the results of the workers

  /** The first worker from w on whose result holds no more than i blocks, or |rs| when there is none. */
  function Cut(rs: seq<seq<string>>, i: nat, w: nat): (c: nat)
    requires w <= |rs|
    ensures w <= c <= |rs|
    ensures c > w ==> |rs[w]| > i
    ensures c < |rs| ==> |rs[c]| <= i
    decreases |rs| - w
  {
    if w == |rs| then w else if |rs[w]| <= i then w else Cut(rs, i, w + 1)
  }

  /** No worker after the first short one is reached. */
  lemma {:induction false} CutAt(rs: seq<seq<string>>, i: nat, w: nat, v: nat)
    requires w <= v < |rs| && |rs[v]| <= i
    ensures Cut(rs, i, w) <= v
    decreases |rs| - w
  {
    if w < v && |rs[w]| > i {
      CutAt(rs, i, w + 1, v);
    }
  }

  /** A worker with an i-th block before the first short one is not the first short one. */
  lemma CutPast(rs: seq<seq<string>>, i: nat, w: nat)
    requires w < |rs| && |rs[w]| > i && w <= Cut(rs, i, 0)
    ensures w < Cut(rs, i, 0)
  {
  }

  /** The i-th blocks of the first n workers (the empty string for a worker that has none). */
  function Picks(rs: seq<seq<string>>, i: nat, n: nat): (r: seq<string>)
    requires n <= |rs|
    ensures |r| == n
  {
    if n == 0 then [] else Picks(rs, i, n - 1) + [if i < |rs[n - 1]| then rs[n - 1][i] else ""]
  }

  /** The blocks the merge writes from round i on: it stops after the first round that meets a short result. */
  function Merged(rs: seq<seq<string>>, i: nat): seq<string>
    requires |rs| > 0 && i <= |rs[0]|
    decreases |rs[0]| - i
  {
    var c := Cut(rs, i, 0);
    if c < |rs| then Picks(rs, i, c) else Picks(rs, i, c) + Merged(rs, i + 1)
  }

  /**
   * After round i has written the blocks of the first w workers, what is
   * left of the merge is the merge from round i + 1 when the round met no
   * short result, and nothing otherwise.
   */
  lemma MergeRound(rs: seq<seq<string>>, i: nat, before: seq<string>, w: nat, cont: bool, all: seq<string>)
    requires |rs| > 0 && i <= |rs[0]| && before + Merged(rs, i) == all
    requires w <= Cut(rs, i, 0) && (cont ==> w == |rs|) && (!cont ==> w < |rs| && |rs[w]| <= i)
    ensures cont ==> i + 1 <= |rs[0]| && (before + Picks(rs, i, w)) + Merged(rs, i + 1) == all
    ensures !cont ==> before + Picks(rs, i, w) == all
  {
    if !cont {
      CutAt(rs, i, 0, w);
    }
  }

  /**
   * The merge of solveAllWithThreads: round after round, the i-th result of
   * each worker in turn, until a worker has no i-th result.
   */
  method Merge(os: string, resultSet: seq<seq<string>>) returns (out: string)
    requires |resultSet| > 0
    ensures out == os + Concat(Merged(resultSet, 0))
  {
    out := os;
    ghost var written := [os];
    assert Concat(written) == os by {
      assert written[..0] == [];
    }
    var cont := true;
    var i := 0;
    while cont
      invariant out == Concat(written)
      invariant cont ==> i <= |resultSet[0]| && written + Merged(resultSet, i) == [os] + Merged(resultSet, 0)
      invariant !cont ==> written == [os] + Merged(resultSet, 0)
      decreases if cont then |resultSet[0]| + 1 - i else 0
    {
      ghost var before := written;
      var w;
      out, cont, written, w := WriteRound(out, resultSet, i, written);
      MergeRound(resultSet, i, before, w, cont, [os] + Merged(resultSet, 0));
      i := i + 1;
    }
    ConcatFront(os, Merged(resultSet, 0));
  }

  /** One round of the merge: the i-th block of each worker in turn, stopping at the first that has none. */
  method WriteRound(os: string, resultSet: seq<seq<string>>, i: nat, ghost written0: seq<string>)
    returns (out: string, cont: bool, ghost written: seq<string>, w: nat)
    requires |resultSet| > 0 && os == Concat(written0)
    ensures out == Concat(written) && w <= |resultSet| && written == written0 + Picks(resultSet, i, w)
    ensures w <= Cut(resultSet, i, 0) && (cont ==> w == |resultSet|)
    ensures !cont ==> w < |resultSet| && |resultSet[w]| <= i
  {
    out, cont, written, w := os, true, written0, 0;
    while w < |resultSet|
      invariant w <= Cut(resultSet, i, 0) && cont
      invariant out == Concat(written) && written == written0 + Picks(resultSet, i, w)
    {
      if |resultSet[w]| <= i {
        cont := false;
        return;
      }
      CutPast(resultSet, i, w);
      ConcatLast(written, resultSet[w][i]);
      written := written + [resultSet[w][i]];
      out := out + resultSet[w][i];
      w := w + 1;
    }
  }

  // ---------------------------------------------------------------------
  // The workers' results merge into the enumeration order

  /** The results of W workers, the one with offset w collecting every W-th block from block w on. */
  function Strides(bs: seq<string>, W: nat): (rs: seq<seq<string>>)
    ensures |rs| == W
  {
    seq(W, w requires 0 <= w < W => Strided(bs, w, W))
  }

  /** In round i the first short worker is the one whose block i * W + w would be past the end. */
  lemma CutOfStrides(bs: seq<string>, W: nat, i: nat)
    requires W > 0 && i * W <= |bs|
    ensures Cut(Strides(bs, W), i, 0) == Min(W, |bs| - i * W)
  {
    var rs := Strides(bs, W);
    var c := Cut(rs, i, 0);
    var m := Min(W, |bs| - i * W);
    if c < W {
      StridedLength(bs, c, W, i);
    }
    if m < W {
      StridedLength(bs, m, W, i);
      CutAt(rs, i, 0, m);
    }
  }

  /** Round i of the merge picks the blocks from i * W on, in order. */
  lemma {:induction false} PicksOfStrides(bs: seq<string>, W: nat, i: nat, n: nat)
    requires W > 0 && n <= W && i * W + n <= |bs|
    ensures Picks(Strides(bs, W), i, n) == bs[i * W..i * W + n]
  {
    if n > 0 {
      PicksOfStrides(bs, W, i, n - 1);
      StridedLength(bs, n - 1, W, i);
      StridedAt(bs, n - 1, W, i);
      assert bs[i * W..i * W + n] == bs[i * W..i * W + n - 1] + [bs[i * W + n - 1]];
    }
  }

  /** The merge of the workers' results from round i on writes the blocks from i * W on, in order. */
  lemma MergedStrides(bs: seq<string>, W: nat, i: nat)
    requires W > 0 && i * W <= |bs|
    ensures i <= |Strided(bs, 0, W)| && Merged(Strides(bs, W), i) == bs[i * W..]
  {
    if i > 0 {
      StepOrder(i - 1, i, W);
      StridedLength(bs, 0, W, i - 1);
    }
    MergedFrom(bs, W, i, i * W);
  }

  lemma {:induction false} MergedFrom(bs: seq<string>, W: nat, i: nat, start: nat)
    requires W > 0 && start == i * W && start <= |bs| && i <= |Strided(bs, 0, W)|
    ensures Merged(Strides(bs, W), i) == bs[start..]
    decreases |bs| - start
  {
    if start + W <= |bs| {
      var next := start + W;
      assert next == (i + 1) * W;
      StepOrder(i, i + 1, W);
      StridedLength(bs, 0, W, i);
      MergedFrom(bs, W, i + 1, next);
      FullRound(bs, W, i, start, next);
    } else {
      LastRound(bs, W, i, start);
    }
  }

  /** A round where every worker has a block is followed by the next round. */
  lemma FullRound(bs: seq<string>, W: nat, i: nat, start: nat, next: nat)
    requires W > 0 && start == i * W && next == start + W && next <= |bs| && i < |Strided(bs, 0, W)|
    requires Merged(Strides(bs, W), i + 1) == bs[next..]
    ensures Merged(Strides(bs, W), i) == bs[start..]
  {
    var rs := Strides(bs, W);
    CutOfStrides(bs, W, i);
    PicksOfStrides(bs, W, i, W);
    MergedUnfold(rs, i);
    SliceSplit(bs, start, next);
  }

  /** A round where some worker has no block is the last. */
  lemma LastRound(bs: seq<string>, W: nat, i: nat, start: nat)
    requires W > 0 && start == i * W && start <= |bs| < start + W && i <= |Strided(bs, 0, W)|
    ensures Merged(Strides(bs, W), i) == bs[start..]
  {
    var rs := Strides(bs, W);
    var c := |bs| - start;
    CutOfStrides(bs, W, i);
    PicksOfStrides(bs, W, i, c);
    MergedUnfold(rs, i);
    assert bs[start..start + c] == bs[start..];
  }

  /** One round of the merge. */
  lemma MergedUnfold(rs: seq<seq<string>>, i: nat)
    requires |rs| > 0 && i <= |rs[0]|
    ensures Cut(rs, i, 0) < |rs| ==> Merged(rs, i) == Picks(rs, i, Cut(rs, i, 0))
    ensures Cut(rs, i, 0) == |rs| ==> i + 1 <= |rs[0]| && Merged(rs, i) == Picks(rs, i, |rs|) + Merged(rs, i + 1)
  {
  }

  lemma SliceSplit(bs: seq<string>, start: nat, next: nat)
    requires start <= next <= |bs|
    ensures bs[start..] == bs[start..next] + bs[next..]
  {
  }

  /** One worker collecting every block collects them all. */
  lemma StridedAll(bs: seq<string>)
    ensures Strided(bs, 0, 1) == bs
  {
    var s := Strided(bs, 0, 1);
    StridedLength(bs, 0, 1, |bs|);
    if bs != [] {
      StridedLength(bs, 0, 1, |bs| - 1);
    }
    forall i | 0 <= i < |bs| ensures s[i] == bs[i] {
      StridedAt(bs, 0, 1, i);
    }
  }

  // ---------------------------------------------------------------------
  // Solving

  /** solveAllInSingleThread: one walk over every hand, then every block written in order. */
  method SolveAllInSingleThread(os: string, ghost hs: seq<seq<int>>) returns (out: string)
    requires Walk(hs)
    ensures out == os + Concat(Blocks(hs))
  {
    ghost var bs := Blocks(hs);
    var result := EnumerateAll(0, 1, [], hs);
    StridedAll(bs);
    assert result == bs;
    out := WriteAll(os, result);
  }

  /**
   * solveAllWithThreads: worker index walks every hand and keeps the block
   * of every sizeOfThreads-th one from hand index on; then the results are
   * merged round by round. The workers run one after the other here.
   */
  method SolveAllWithThreads(sizeOfThreads: nat, os: string, ghost hs: seq<seq<int>>) returns (out: string)
    requires sizeOfThreads > 0 && Walk(hs)
    ensures out == os + Concat(Blocks(hs))
  {
    ghost var bs := Blocks(hs);
    var resultSet: seq<seq<string>> := seq(sizeOfThreads, _ => []);
    var index := 0;
    while index < sizeOfThreads
      invariant index <= sizeOfThreads && |resultSet| == sizeOfThreads
      invariant forall j :: 0 <= j < index ==> resultSet[j] == Strided(bs, j, sizeOfThreads)
      invariant forall j :: index <= j < sizeOfThreads ==> resultSet[j] == []
    {
      var result := EnumerateAll(index, sizeOfThreads, resultSet[index], hs);
      resultSet := resultSet[index := result];
      index := index + 1;
    }
    assert resultSet == Strides(bs, sizeOfThreads);
    out := Merge(os, resultSet);
    MergedStrides(bs, sizeOfThreads, 0);
  }

  /** SolveAll: one thread for a count of at most 1, workers otherwise; the text is the same. */
  method SolveAll(sizeOfThreads: nat, os: string, ghost hs: seq<seq<int>>) returns (out: string)
    requires Walk(hs)
    ensures out == os + Concat(Blocks(hs))
  {
    if sizeOfThreads <= 1 {
      out := SolveAllInSingleThread(os, hs);
    } else {
      out := SolveAllWithThreads(sizeOfThreads, os, hs);
    }
  }

  /**
   * main: the first argument, when there is one, chooses the thread count;
   * the text written to standard output is every block in order, whatever
   * the count.
   */
  method Run(cygwin: bool, args: seq<string>, hardware: nat, ghost hs: seq<seq<int>>) returns (out: string)
    requires Walk(hs)
    ensures out == Concat(Blocks(hs))
  {
    var sizeOfThreads := if |args| > 1 then GetSizeOfThreads(cygwin, args[1], hardware) else 1;
    out := SolveAll(sizeOfThreads, "", hs);
  }
}
