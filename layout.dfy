/**
 * Index arithmetic of the multi-hot layout: every schema column owns a
 * contiguous block of the encoded row, as wide as the number of answers the
 * vocabulary retained for it, and the blocks follow each other in column
 * order. A block starts at the sum of the widths before it (np.sum of a
 * prefix of ans_widths in encoding.py).
 */
module Layout {

  /** Sum of a sequence of block widths. */
  function Sum(s: seq<nat>): nat
  {
    if s == [] then 0 else Sum(s[..|s| - 1]) + s[|s| - 1]
  }

  /** Global position at which block k starts: the sum of widths[:k]. */
  function Offset(widths: seq<nat>, k: nat): nat
    requires k <= |widths|
  {
    Sum(widths[..k])
  }

  /** Block k + 1 starts where block k ends: offsets are running prefix sums. */
  lemma OffsetStep(widths: seq<nat>, k: nat)
    requires k < |widths|
    ensures Offset(widths, k + 1) == Offset(widths, k) + widths[k]
  {
    assert widths[..k + 1][..k] == widths[..k];
  }

  /** The offset of the block past the last one is the total width. */
  lemma OffsetAll(widths: seq<nat>)
    ensures Offset(widths, |widths|) == Sum(widths)
  {
    assert widths[..|widths|] == widths;
  }

  /** Offsets never decrease from one block to a later one. */
  lemma {:induction false} OffsetMono(widths: seq<nat>, j: nat, k: nat)
    requires j <= k <= |widths|
    ensures Offset(widths, j) <= Offset(widths, k)
    decreases k - j
  {
    if j < k {
      OffsetStep(widths, j);
      OffsetMono(widths, j + 1, k);
    }
  }

  /** Every block lies inside the total width. */
  lemma BlockWithin(widths: seq<nat>, k: nat)
    requires k < |widths|
    ensures Offset(widths, k) + widths[k] <= Sum(widths)
  {
    OffsetStep(widths, k);
    OffsetMono(widths, k + 1, |widths|);
    OffsetAll(widths);
  }

  /** Changing the width of block i moves no block at or before i. */
  lemma OffsetUpdate(widths: seq<nat>, i: nat, x: nat, j: nat)
    requires j <= i < |widths|
    ensures Offset(widths[i := x], j) == Offset(widths, j)
  {
    assert widths[i := x][..j] == widths[..j];
  }

  /** Changing the width of block i changes the total by the same amount. */
  lemma {:induction false} SumUpdate(widths: seq<nat>, i: nat, x: nat)
    requires i < |widths|
    ensures Sum(widths[i := x]) == Sum(widths) - widths[i] + x
  {
    var n := |widths| - 1;
    var u := widths[i := x];
    if i < n {
      assert u[..n] == widths[..n][i := x];
      SumUpdate(widths[..n], i, x);
    } else {
      assert u[..n] == widths[..n];
    }
  }

  /** When every block from n on is empty, block n starts at the total width. */
  lemma {:induction false} OffsetTailEmpty(widths: seq<nat>, n: nat)
    requires n <= |widths|
    requires forall c :: n <= c < |widths| ==> widths[c] == 0
    ensures Offset(widths, n) == Sum(widths)
    decreases |widths| - n
  {
    if n == |widths| {
      OffsetAll(widths);
    } else {
      OffsetStep(widths, n);
      OffsetTailEmpty(widths, n + 1);
    }
  }

  /** Every global position below the total width lies in some block
      (LocateUnique shows there is only one). */
  lemma {:induction false} Locate(widths: seq<nat>, g: nat) returns (j: nat, p: nat)
    requires g < Sum(widths)
    ensures j < |widths| && p < widths[j] && g == Offset(widths, j) + p
  {
    var n := |widths| - 1;
    var front := widths[..n];
    assert Sum(widths) == Sum(front) + widths[n];
    if g >= Sum(front) {
      j, p := n, g - Sum(front);
    } else {
      j, p := Locate(front, g);
      assert front[..j] == widths[..j];
    }
  }

  /** The column owning a position at or after block n is column n or later. */
  lemma LocateAfter(widths: seq<nat>, n: nat, g: nat, j: nat, p: nat)
    requires n <= |widths| && j < |widths| && p < widths[j]
    requires g == Offset(widths, j) + p && Offset(widths, n) <= g
    ensures n <= j
  {
    if j < n {
      OffsetStep(widths, j);
      OffsetMono(widths, j + 1, n);
    }
  }

  /** A global position lies in at most one block, at one place in it. */
  lemma LocateUnique(widths: seq<nat>, g: nat, j1: nat, p1: nat, j2: nat, p2: nat)
    requires j1 < |widths| && p1 < widths[j1] && g == Offset(widths, j1) + p1
    requires j2 < |widths| && p2 < widths[j2] && g == Offset(widths, j2) + p2
    ensures j1 == j2 && p1 == p2
  {
    LocateAfter(widths, j2, g, j1, p1);
    LocateAfter(widths, j1, g, j2, p2);
  }

  /** The block of column k of a row (row[start:end] in encoding.py). */
  function BlockOf<T>(s: seq<T>, widths: seq<nat>, k: nat): (b: seq<T>)
    requires k < |widths| && Sum(widths) <= |s|
    ensures |b| == widths[k]
  {
    BlockWithin(widths, k);
    s[Offset(widths, k)..Offset(widths, k) + widths[k]]
  }

  /** The blocks laid end to end, in column order. */
  function Concat<T>(blocks: seq<seq<T>>): seq<T>
  {
    if blocks == [] then [] else Concat(blocks[..|blocks| - 1]) + blocks[|blocks| - 1]
  }

  /** Blocks of the given widths, laid end to end, put block j's p-th entry at
      Offset(widths, j) + p, and fill exactly the total width. */
  lemma {:induction false} ConcatAt<T>(blocks: seq<seq<T>>, widths: seq<nat>, j: nat, p: nat)
    requires |blocks| == |widths|
    requires forall c :: 0 <= c < |blocks| ==> |blocks[c]| == widths[c]
    requires j < |widths| && p < widths[j]
    ensures |Concat(blocks)| == Sum(widths) && Offset(widths, j) + p < Sum(widths)
    ensures Concat(blocks)[Offset(widths, j) + p] == blocks[j][p]
  {
    var n := |blocks| - 1;
    BlockWithin(widths, j);
    ConcatLength(blocks, widths);
    ConcatLength(blocks[..n], widths[..n]);
    assert Concat(blocks) == Concat(blocks[..n]) + blocks[n];
    if j < n {
      ConcatAt(blocks[..n], widths[..n], j, p);
      assert widths[..n][..j] == widths[..j];
      BlockWithin(widths[..n], j);
    } else {
      assert widths[..n] == widths[..j];
    }
  }

  /** Every position of block j of the concatenation holds the matching entry of block j. */
  lemma ConcatRange<T>(blocks: seq<seq<T>>, widths: seq<nat>, j: nat)
    requires |blocks| == |widths|
    requires forall c :: 0 <= c < |blocks| ==> |blocks[c]| == widths[c]
    requires j < |widths|
    ensures |Concat(blocks)| == Sum(widths) && Offset(widths, j) + widths[j] <= Sum(widths)
    ensures forall g :: Offset(widths, j) <= g < Offset(widths, j) + widths[j] ==>
              Concat(blocks)[g] == blocks[j][g - Offset(widths, j)]
  {
    ConcatLength(blocks, widths);
    BlockWithin(widths, j);
    forall g | Offset(widths, j) <= g < Offset(widths, j) + widths[j]
      ensures Concat(blocks)[g] == blocks[j][g - Offset(widths, j)]
    {
      ConcatAt(blocks, widths, j, g - Offset(widths, j));
    }
  }

  /** Blocks of the given widths laid end to end fill exactly the total width. */
  lemma {:induction false} ConcatLength<T>(blocks: seq<seq<T>>, widths: seq<nat>)
    requires |blocks| == |widths|
    requires forall c :: 0 <= c < |blocks| ==> |blocks[c]| == widths[c]
    ensures |Concat(blocks)| == Sum(widths)
  {
    if blocks != [] {
      var n := |blocks| - 1;
      ConcatLength(blocks[..n], widths[..n]);
    }
  }

  /** Cutting block j out of the concatenation gives back block j. */
  lemma ConcatBlock<T>(blocks: seq<seq<T>>, widths: seq<nat>, j: nat)
    requires |blocks| == |widths|
    requires forall c :: 0 <= c < |blocks| ==> |blocks[c]| == widths[c]
    requires j < |widths|
    ensures |Concat(blocks)| == Sum(widths)
    ensures BlockOf(Concat(blocks), widths, j) == blocks[j]
  {
    ConcatLength(blocks, widths);
    BlockWithin(widths, j);
    var o := Offset(widths, j);
    var b := BlockOf(Concat(blocks), widths, j);
    assert b == Concat(blocks)[o..o + widths[j]];
    forall p | 0 <= p < widths[j]
      ensures b[p] == blocks[j][p]
    {
      ConcatAt(blocks, widths, j, p);
    }
  }
}
