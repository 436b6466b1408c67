/**
 * The external-fragmentation metric: the free memory that lies outside the
 * largest free block, i.e. the free memory a single request as large as
 * possible cannot use.
 */
module Fragmentation {
  import opened Blocks
  import opened Allocation

  /** The sizes of the free blocks, in address order: one entry per free block. */
  function FreeSizes(s: seq<Block>): (r: seq<nat>)
    ensures |r| + |UsedBlocks(s)| == |s|
    ensures forall j :: 0 <= j < |s| && s[j].IsFree() ==> s[j].size in r
    ensures forall x :: x in r ==> exists j :: 0 <= j < |s| && s[j].IsFree() && s[j].size == x
    decreases |s|
  {
    if |s| == 0 then []
    else
      var pre := s[..|s| - 1];
      assert forall j :: 0 <= j < |pre| ==> pre[j] == s[j];
      if Last(s).IsFree() then FreeSizes(pre) + [Last(s).size] else FreeSizes(pre)
  }

  function Sum(xs: seq<nat>): nat
    decreases |xs|
  {
    if |xs| == 0 then 0 else Sum(xs[..|xs| - 1]) + xs[|xs| - 1]
  }

  /** The largest element, or 0 for the empty sequence. */
  function Max(xs: seq<nat>): (r: nat)
    ensures forall x :: x in xs ==> x <= r
    ensures |xs| > 0 ==> r in xs
    ensures |xs| == 0 ==> r == 0
    decreases |xs|
  {
    if |xs| == 0 then 0
    else
      var pre := xs[..|xs| - 1];
      assert xs == pre + [xs[|xs| - 1]];
      var m := Max(pre);
      if m >= xs[|xs| - 1] then m else xs[|xs| - 1]
  }

  lemma {:induction false} MaxAtMostSum(xs: seq<nat>)
    ensures Max(xs) <= Sum(xs)
    decreases |xs|
  {
    if |xs| > 0 {
      MaxAtMostSum(xs[..|xs| - 1]);
    }
  }

  /** With two or more positive elements, the sum exceeds the largest. */
  lemma {:induction false} MaxBelowSum(xs: seq<nat>)
    requires |xs| >= 2
    requires forall i :: 0 <= i < |xs| ==> xs[i] > 0
    ensures Max(xs) < Sum(xs)
    decreases |xs|
  {
    var pre := xs[..|xs| - 1];
    assert forall i :: 0 <= i < |pre| ==> pre[i] == xs[i];
    MaxAtMostSum(pre);
    if |pre| >= 2 {
      MaxBelowSum(pre);
    } else {
      assert Sum(pre) == Sum(pre[..0]) + pre[0];
    }
  }

  /** Total free memory. */
  function TotalFree(s: seq<Block>): nat {
    Sum(FreeSizes(s))
  }

  /**
   * Free and used memory account for every block: the free sizes and the
   * used blocks together add up to the size of the whole list.
   */
  lemma {:induction false} FreeAndUsedPartition(s: seq<Block>)
    ensures TotalFree(s) + TotalSize(UsedBlocks(s)) == TotalSize(s)
    decreases |s|
  {
    if |s| > 0 {
      var pre := s[..|s| - 1];
      FreeAndUsedPartition(pre);
      var f := FreeSizes(pre);
      var u := UsedBlocks(pre);
      if Last(s).IsFree() {
        assert (f + [Last(s).size])[..|f|] == f;
      } else {
        assert (u + [Last(s)])[..|u|] == u;
      }
    }
  }

  /** On a tiling of `[0, total)`, the free memory is the capacity minus the used memory. */
  lemma FreeOnTiling(s: seq<Block>, total: nat)
    requires Tiles(s, total)
    ensures TotalFree(s) == total - TotalSize(UsedBlocks(s))
  {
    FreeAndUsedPartition(s);
    TilesCoverCapacity(s, total);
  }

  /** The size of the largest free block, 0 when nothing is free: the largest request that can succeed. */
  function LargestFree(s: seq<Block>): nat {
    Max(FreeSizes(s))
  }

  /** The source's metric: 0 with at most one free block, else total free minus the largest free block. */
  function ExternalFragmentation(s: seq<Block>): (r: nat)
    ensures r <= TotalFree(s)
    ensures |FreeSizes(s)| <= 1 ==> r == 0
  {
    var f := FreeSizes(s);
    if |f| <= 1 then 0
    else
      MaxAtMostSum(f);
      Sum(f) - Max(f)
  }

  /**
   * The early exit for at most one free block agrees with the general
   * formula: fragmentation is always the free memory outside the largest
   * free block.
   */
  lemma FragmentationIsFreeOutsideLargest(s: seq<Block>)
    ensures ExternalFragmentation(s) + LargestFree(s) == TotalFree(s)
  {
    var f := FreeSizes(s);
    if |f| == 1 {
      assert f[..0] == [];
      assert Sum(f) == f[0];
    } else if |f| == 0 {
    } else {
      MaxAtMostSum(f);
    }
  }

  /** In a valid list, fragmentation is zero exactly when at most one block is free. */
  lemma FragmentationZeroIff(s: seq<Block>, total: nat)
    requires Valid(s, total)
    ensures ExternalFragmentation(s) == 0 <==> |FreeSizes(s)| <= 1
  {
    var f := FreeSizes(s);
    if |f| >= 2 {
      forall i | 0 <= i < |f|
        ensures f[i] > 0
      {
        assert f[i] in f;
      }
      MaxBelowSum(f);
    }
  }

  /**
   * Every strategy succeeds on a request of `n > 0` units exactly when the
   * largest free block holds `n`: the metric's "largest free block" is the
   * largest request the manager can grant.
   */
  lemma AllocateSucceedsIff(m: Manager, strategy: Strategy, p: ProcessId, n: nat)
    requires n > 0
    ensures Allocate(m, strategy, p, n).outcome == Success <==> n <= LargestFree(m.blocks)
  {
  }
}
