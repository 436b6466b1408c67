/**
 * The coalescing pass run after every successful deallocation: one left-to-right sweep
 * that merges each free block into a free left neighbour, so that runs of
 * free blocks of any length collapse into one.
 */
module Coalescing {
  import opened Blocks

  /**
   * One step of the sweep, seen from the output side: `acc` is the already
   * coalesced prefix and `b` the next input block. A free `b` after a free
   * last block is absorbed into it (start kept, sizes added); otherwise `b`
   * is appended.
   */
  function Push(acc: seq<Block>, b: Block): seq<Block> {
    if |acc| > 0 && Last(acc).IsFree() && b.IsFree() then
      acc[..|acc| - 1] + [Last(acc).(size := Last(acc).size + b.size)]
    else
      acc + [b]
  }

  /** What one step of the sweep keeps: the used blocks, the total size, the invariants. */
  lemma PushKeeps(acc: seq<Block>, b: Block)
    ensures |Push(acc, b)| > 0 && Last(Push(acc, b)).IsFree() == b.IsFree()
    ensures |Push(acc, b)| <= |acc| + 1
    ensures NoAdjacentFree(acc) ==> NoAdjacentFree(Push(acc, b))
    ensures PositiveSizes(acc) && b.size > 0 ==> PositiveSizes(Push(acc, b))
    ensures UsedBlocks(Push(acc, b)) == UsedBlocks(acc + [b])
    ensures TotalSize(Push(acc, b)) == TotalSize(acc + [b])
  {
  }

  /** One step of the sweep keeps a contiguous list contiguous, with its first start. */
  lemma PushContiguous(acc: seq<Block>, b: Block)
    requires Contiguous(acc) && (|acc| > 0 ==> Last(acc).End() == b.start)
    ensures |Push(acc, b)| > 0 && Contiguous(Push(acc, b)) && Last(Push(acc, b)).End() == b.End()
    ensures Push(acc, b)[0].start == (acc + [b])[0].start
  {
  }

  /**
   * The reference definition of the pass: the blocks pushed one at a time,
   * in address order, through `Push`.
   */
  function Coalesce(s: seq<Block>): seq<Block>
    decreases |s|
  {
    if |s| == 0 then [] else Push(Coalesce(s[..|s| - 1]), Last(s))
  }

  /**
   * What the pass guarantees: no free neighbours are left, the used blocks
   * are exactly those of the input in the same order, the sizes still add
   * up to the same total, and no block becomes empty.
   */
  lemma {:induction false} CoalesceKeeps(s: seq<Block>)
    ensures NoAdjacentFree(Coalesce(s))
    ensures UsedBlocks(Coalesce(s)) == UsedBlocks(s)
    ensures TotalSize(Coalesce(s)) == TotalSize(s)
    ensures PositiveSizes(s) ==> PositiveSizes(Coalesce(s))
    ensures |Coalesce(s)| <= |s|
    decreases |s|
  {
    if |s| > 0 {
      var pre := s[..|s| - 1];
      assert s == pre + [Last(s)];
      assert PositiveSizes(s) ==> PositiveSizes(pre) by {
        if PositiveSizes(s) {
          forall i | 0 <= i < |pre|
            ensures pre[i].size > 0
          {
            assert pre[i] == s[i];
          }
        }
      }
      CoalesceKeeps(pre);
      UsedBlocksAppend(Coalesce(pre), [Last(s)]);
      UsedBlocksAppend(pre, [Last(s)]);
      TotalSizeAppend(Coalesce(pre), [Last(s)]);
      TotalSizeAppend(pre, [Last(s)]);
      PushKeeps(Coalesce(pre), Last(s));
    }
  }

  /**
   * The sweep as the source writes it: an index `i` into the list; when the
   * blocks at `i` and `i + 1` are both free the second is folded into the
   * first and removed and `i` stays put, otherwise `i` advances. The sort
   * that precedes it is the identity on a list already sorted by start,
   * which the precondition demands.
   */
  method MergeFreeBlocks(s: seq<Block>) returns (r: seq<Block>)
    requires SortedByStart(s)
    ensures r == Coalesce(s)
  {
    r := s;
    var i := 0;
    // `k` counts the input blocks consumed: `r` is the coalesced prefix
    // `s[..k]`, whose last block sits at `i`, followed by the untouched rest.
    ghost var k := if |s| == 0 then 0 else 1;
    if |s| > 0 {
      CoalesceSnoc(s, 0);
      assert s[..0] == [] && s == [s[0]] + s[1..];
    } else {
      assert s[..0] == [] && s[0..] == [];
    }
    while i < |r| - 1
      invariant k <= |s| && (|s| > 0 ==> 1 <= k)
      invariant r == Coalesce(s[..k]) + s[k..]
      invariant |s| > 0 ==> i == |Coalesce(s[..k])| - 1
      decreases |r| - i
    {
      SweepStep(s, k, r, i);
      if r[i].IsFree() && r[i + 1].IsFree() {
        r := r[..i] + [r[i].(size := r[i].size + r[i + 1].size)] + r[i + 2..];
      } else {
        i := i + 1;
      }
      k := k + 1;
    }
    assert s[k..] == [] && s[..k] == s;
  }

  /** One iteration of the sweep consumes the input block `s[k]`. */
  lemma SweepStep(s: seq<Block>, k: nat, r: seq<Block>, i: int)
    requires 1 <= k <= |s| && r == Coalesce(s[..k]) + s[k..]
    requires i == |Coalesce(s[..k])| - 1 && i < |r| - 1
    ensures k < |s| && 0 <= i
    ensures r[i].IsFree() && r[i + 1].IsFree() ==>
              && r[..i] + [r[i].(size := r[i].size + r[i + 1].size)] + r[i + 2..] == Coalesce(s[..k + 1]) + s[k + 1..]
              && i == |Coalesce(s[..k + 1])| - 1
    ensures !(r[i].IsFree() && r[i + 1].IsFree()) ==>
              r == Coalesce(s[..k + 1]) + s[k + 1..] && i + 1 == |Coalesce(s[..k + 1])| - 1
  {
    var c := Coalesce(s[..k]);
    CoalesceSnoc(s, k);
    assert s[k..] == [s[k]] + s[k + 1..];
    if r[i].IsFree() && r[i + 1].IsFree() {
      MergeStep(c, s[k], s[k + 1..], r, i);
    } else {
      AdvanceStep(c, s[k], s[k + 1..], r, i);
    }
  }

  /** Folding the block at `|c|` into the one before it is one `Push`. */
  lemma MergeStep(c: seq<Block>, x: Block, rest: seq<Block>, r: seq<Block>, i: int)
    requires r == c + ([x] + rest) && i == |c| - 1
    requires |c| > 0 && Last(c).IsFree() && x.IsFree()
    ensures 0 <= i && i + 1 < |r| && r[i].IsFree() && r[i + 1].IsFree()
    ensures r[..i] + [r[i].(size := r[i].size + r[i + 1].size)] + r[i + 2..] == Push(c, x) + rest
    ensures |Push(c, x)| == |c|
  {
  }

  /** Stepping past a pair that is not both free is one `Push` as well. */
  lemma AdvanceStep(c: seq<Block>, x: Block, rest: seq<Block>, r: seq<Block>, i: int)
    requires r == c + ([x] + rest) && i == |c| - 1 && |c| > 0
    requires !(r[i].IsFree() && r[i + 1].IsFree())
    ensures r == Push(c, x) + rest && |Push(c, x)| == |c| + 1
  {
  }

  lemma CoalesceSnoc(s: seq<Block>, k: nat)
    requires k < |s|
    ensures Coalesce(s[..k + 1]) == Push(Coalesce(s[..k]), s[k])
  {
    assert s[..k + 1][..k] == s[..k];
  }

  /** The pass keeps the blocks contiguous, and the first start and last end in place. */
  lemma {:induction false} CoalesceContiguous(s: seq<Block>)
    requires |s| > 0 && Contiguous(s)
    ensures |Coalesce(s)| > 0 && Contiguous(Coalesce(s))
    ensures Coalesce(s)[0].start == s[0].start
    ensures Last(Coalesce(s)).End() == Last(s).End()
    decreases |s|
  {
    var pre := s[..|s| - 1];
    if |pre| > 0 {
      assert Contiguous(pre) by {
        forall i | 0 <= i < |pre| - 1
          ensures pre[i].End() == pre[i + 1].start
        {
          assert pre[i] == s[i] && pre[i + 1] == s[i + 1];
        }
      }
      CoalesceContiguous(pre);
      assert Last(pre) == s[|s| - 2];
      PushContiguous(Coalesce(pre), Last(s));
    } else {
      assert Coalesce(pre) == [];
      PushContiguous([], Last(s));
    }
  }

  /** On a valid list's tiling the pass re-establishes the whole invariant. */
  lemma CoalesceValid(s: seq<Block>, total: nat)
    requires Tiles(s, total) && PositiveSizes(s)
    ensures Valid(Coalesce(s), total)
  {
    CoalesceKeeps(s);
    CoalesceContiguous(s);
  }

  /** Pushing a block that does not meet a free block on its left appends it. */
  lemma PushAppends(acc: seq<Block>, b: Block)
    requires |acc| > 0 ==> !(Last(acc).IsFree() && b.IsFree())
    ensures Push(acc, b) == acc + [b]
  {
  }

  lemma CoalesceAppendOne(p: seq<Block>, b: Block)
    ensures Coalesce(p + [b]) == Push(Coalesce(p), b)
  {
  }

  /** A list with no free neighbours is left exactly as it is. */
  lemma {:induction false} CoalesceClean(s: seq<Block>)
    requires NoAdjacentFree(s)
    ensures Coalesce(s) == s
    decreases |s|
  {
    if |s| > 0 {
      var pre := s[..|s| - 1];
      NoAdjacentFreePrefix(s, |s| - 1);
      CoalesceClean(pre);
      assert s == pre + [Last(s)];
      CoalesceAppendOne(pre, Last(s));
      if |pre| > 0 {
        assert Last(pre) == s[|s| - 2];
      }
      PushAppends(pre, Last(s));
    }
  }

  /** Running the pass a second time changes nothing. */
  lemma CoalesceIdempotent(s: seq<Block>)
    ensures Coalesce(Coalesce(s)) == Coalesce(s)
  {
    CoalesceKeeps(s);
    CoalesceClean(Coalesce(s));
  }

  /**
   * Once the prefix `a` is coalesced, a suffix that creates no free
   * neighbours passes through the sweep untouched.
   */
  lemma {:induction false} CoalesceExtend(a: seq<Block>, q: seq<Block>)
    requires NoAdjacentFree(Coalesce(a) + q)
    ensures Coalesce(a + q) == Coalesce(a) + q
    decreases |q|
  {
    if |q| == 0 {
      assert a + q == a;
    } else {
      var c := Coalesce(a);
      var q' := q[..|q| - 1];
      var y := Last(q);
      assert a + q == (a + q') + [y];
      assert c + q == (c + q') + [y];
      assert c + q' == (c + q)[..|c + q| - 1];
      NoAdjacentFreePrefix(c + q, |c + q| - 1);
      CoalesceExtend(a, q');
      CoalesceAppendOne(a + q', y);
      if |c + q'| > 0 {
        assert Last(c + q') == (c + q)[|c + q| - 2];
      }
      PushAppends(c + q', y);
    }
  }
}
