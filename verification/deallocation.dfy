/**
 * Deallocation: release the first used block of a process, then run the
 * coalescing pass over the whole list; and the round trip with allocation.
 */
module Deallocation {
  import opened Blocks
  import opened Coalescing
  import opened Allocation

  /** `k` is the first used block owned by `p`. */
  predicate IsFirstOwned(s: seq<Block>, p: ProcessId, k: nat) {
    k < |s| && s[k].status == Used(p) && forall j :: 0 <= j < k ==> s[j].status != Used(p)
  }

  /** The scan for the block to release, from index `i`. */
  function FindOwnedScan(s: seq<Block>, p: ProcessId, i: nat): (r: Option<nat>)
    requires i <= |s|
    requires forall j :: 0 <= j < i ==> s[j].status != Used(p)
    ensures r.Some? ==> IsFirstOwned(s, p, r.value)
    ensures r.None? <==> !HasOwner(s, p)
    decreases |s| - i
  {
    if i == |s| then None
    else if s[i].status == Used(p) then Some(i)
    else FindOwnedScan(s, p, i + 1)
  }

  /** Block `k` made free: same extent, owner dropped. */
  function Release(s: seq<Block>, k: nat): seq<Block>
    requires k < |s|
  {
    s[k := s[k].(status := Free)]
  }

  /**
   * Releasing a block drops exactly that block from the used blocks and
   * keeps every extent, hence the total size, contiguity and positive sizes.
   */
  lemma ReleaseKeeps(s: seq<Block>, k: nat)
    requires k < |s|
    ensures UsedBlocks(Release(s, k)) == UsedBlocks(s[..k]) + UsedBlocks(s[k + 1..])
    ensures TotalSize(Release(s, k)) == TotalSize(s)
    ensures Contiguous(s) ==> Contiguous(Release(s, k))
    ensures PositiveSizes(s) ==> PositiveSizes(Release(s, k))
  {
    ReleaseShape(s, k);
    ReleaseUsedAt(s, k);
    ReleaseSizeAt(s, k);
  }

  lemma ReleaseUsedAt(s: seq<Block>, k: nat)
    requires k < |s|
    ensures UsedBlocks(Release(s, k)) == UsedBlocks(s[..k]) + UsedBlocks(s[k + 1..])
  {
    assert Release(s, k) == s[..k] + [s[k].(status := Free)] + s[k + 1..];
    ReleaseUsed(s[..k], s[k], s[k + 1..]);
  }

  lemma ReleaseSizeAt(s: seq<Block>, k: nat)
    requires k < |s|
    ensures TotalSize(Release(s, k)) == TotalSize(s)
  {
    TotalSizeUpdate(s, k, s[k].(status := Free));
  }

  lemma ReleaseShape(s: seq<Block>, k: nat)
    requires k < |s|
    ensures Contiguous(s) ==> Contiguous(Release(s, k))
    ensures PositiveSizes(s) ==> PositiveSizes(Release(s, k))
  {
  }

  lemma ReleaseUsed(head: seq<Block>, b: Block, tail: seq<Block>)
    ensures UsedBlocks(head + [b.(status := Free)] + tail) == UsedBlocks(head) + UsedBlocks(tail)
  {
    var freed := b.(status := Free);
    assert [freed][..0] == [];
    UsedBlocksAppend(head + [freed], tail);
    UsedBlocksAppend(head, [freed]);
  }

  /**
   * Release the first used block owned by `p` and coalesce. Only that block
   * is released: any later block under the same id stays used. The pass's
   * defensive sort is the identity on a list sorted by start, which the
   * precondition demands.
   */
  function Deallocate(m: Manager, p: ProcessId): (r: Reply)
    requires SortedByStart(m.blocks)
    ensures r.manager.total == m.total
    ensures r.outcome == Fail <==> !HasOwner(m.blocks, p)
    ensures r.outcome == Fail ==> r.manager == m
    ensures r.outcome == Success ==>
              && NoAdjacentFree(r.manager.blocks)
              && TotalSize(r.manager.blocks) == TotalSize(m.blocks)
              && exists k: nat :: IsFirstOwned(m.blocks, p, k)
                             && UsedBlocks(r.manager.blocks) == UsedBlocks(m.blocks[..k]) + UsedBlocks(m.blocks[k + 1..])
  {
    match FindOwnedScan(m.blocks, p, 0)
    case None => Reply(Fail, m)
    case Some(k) =>
      ReleaseKeeps(m.blocks, k);
      CoalesceKeeps(Release(m.blocks, k));
      Reply(Success, m.(blocks := Coalesce(Release(m.blocks, k))))
  }

  /** Deallocation keeps a valid manager valid, whether it succeeds or fails. */
  lemma DeallocateValid(m: Manager, p: ProcessId)
    requires Valid(m.blocks, m.total)
    ensures Valid(Deallocate(m, p).manager.blocks, m.total)
  {
    match FindOwnedScan(m.blocks, p, 0)
    case None =>
    case Some(k) =>
      var t := Release(m.blocks, k);
      ReleaseKeeps(m.blocks, k);
      assert Tiles(t, m.total) by {
        if k == |m.blocks| - 1 {
          assert Last(t) == t[k];
        } else {
          assert Last(t) == Last(m.blocks);
        }
      }
      CoalesceValid(t, m.total);
  }

  /**
   * The source's handling of a duplicated id: when `p` owns two used
   * blocks, deallocating `p` succeeds and still leaves a block owned by `p`.
   */
  lemma DeallocateLeavesLaterDuplicate(m: Manager, p: ProcessId, j: nat, k: nat)
    requires SortedByStart(m.blocks)
    requires j < k < |m.blocks|
    requires m.blocks[j].status == Used(p) && m.blocks[k].status == Used(p)
    ensures Deallocate(m, p).outcome == Success
    ensures HasOwner(Deallocate(m, p).manager.blocks, p)
  {
    var s := m.blocks;
    var r := Deallocate(m, p).manager.blocks;
    var f: nat :| IsFirstOwned(s, p, f) && UsedBlocks(r) == UsedBlocks(s[..f]) + UsedBlocks(s[f + 1..]);
    assert f <= j;
    var tail := s[f + 1..];
    assert tail[k - f - 1] == s[k];
    UsedBlocksMembers(tail);
    UsedBlocksMembers(r);
    assert s[k] in UsedBlocks(tail);
    assert s[k] in r;
    var i :| 0 <= i < |r| && r[i] == s[k];
  }

  /**
   * When `p` owns at most one used block, deallocating `p` leaves no block
   * owned by `p`.
   */
  lemma DeallocateClearsSoleOwner(m: Manager, p: ProcessId)
    requires SortedByStart(m.blocks)
    requires forall j1, j2 :: 0 <= j1 < j2 < |m.blocks| && m.blocks[j1].status == Used(p) ==> m.blocks[j2].status != Used(p)
    ensures !HasOwner(Deallocate(m, p).manager.blocks, p)
  {
    var s := m.blocks;
    var d := Deallocate(m, p);
    if d.outcome == Success {
      var r := d.manager.blocks;
      var f: nat :| IsFirstOwned(s, p, f) && UsedBlocks(r) == UsedBlocks(s[..f]) + UsedBlocks(s[f + 1..]);
      assert forall j :: f < j < |s| ==> s[j].status != Used(p);
      SoleOwnerReleased(s, p, f, r);
    }
  }

  /** Whatever is left of the used blocks around the only block of `p` has no block of `p`. */
  lemma SoleOwnerReleased(s: seq<Block>, p: ProcessId, f: nat, r: seq<Block>)
    requires IsFirstOwned(s, p, f)
    requires forall j :: f < j < |s| ==> s[j].status != Used(p)
    requires UsedBlocks(r) == UsedBlocks(s[..f]) + UsedBlocks(s[f + 1..])
    ensures !HasOwner(r, p)
  {
    var tail := s[f + 1..];
    forall j | 0 <= j < |tail|
      ensures tail[j].status != Used(p)
    {
      assert tail[j] == s[f + 1 + j];
    }
    NotOwnedUsed(s[..f], p);
    NotOwnedUsed(tail, p);
    UsedBlocksMembers(r);
  }

  /** A list where `p` owns no block has no used block owned by `p`. */
  lemma NotOwnedUsed(s: seq<Block>, p: ProcessId)
    requires !HasOwner(s, p)
    ensures forall b :: b in UsedBlocks(s) ==> b.status != Used(p)
  {
  }

  /**
   * Allocation followed by deallocation of the same, previously unknown,
   * process restores the manager exactly; both report the same outcome.
   */
  lemma AllocateDeallocateRoundTrip(m: Manager, strategy: Strategy, p: ProcessId, n: nat)
    requires Valid(m.blocks, m.total) && n > 0
    requires !HasOwner(m.blocks, p)
    ensures Valid(Allocate(m, strategy, p, n).manager.blocks, m.total)
    ensures Deallocate(Allocate(m, strategy, p, n).manager, p).manager == m
    ensures Deallocate(Allocate(m, strategy, p, n).manager, p).outcome == Allocate(m, strategy, p, n).outcome
  {
    AllocateValid(m, strategy, p, n);
    var a := Allocate(m, strategy, p, n);
    if a.outcome == Success {
      var s := m.blocks;
      var k :| 0 <= k < |s| && Fits(s[k], n) && Chosen(strategy, s, n, k)
               && a.manager.blocks == Split(s, k, p, n);
      SplitThenRelease(s, k, p, n);
    }
  }

  /** After the split, the new block is the first one owned by an owner with no earlier block. */
  lemma SplitFirstOwned(s: seq<Block>, k: nat, p: ProcessId, n: nat)
    requires k < |s| && n <= s[k].size
    requires forall j :: 0 <= j < k ==> s[j].status != Used(p)
    ensures FindOwnedScan(Split(s, k, p, n), p, 0) == Some(k)
  {
  }

  /** Releasing the block just split off leaves free pieces that tile the original block. */
  lemma ReleaseSplit(s: seq<Block>, k: nat, p: ProcessId, n: nat)
    requires k < |s| && n <= s[k].size && n > 0
    ensures s[k].size == n ==>
              Release(Split(s, k, p, n), k) == s[..k] + [s[k].(status := Free)] + s[k + 1..]
    ensures s[k].size > n ==>
              Release(Split(s, k, p, n), k)
              == s[..k] + [Block(s[k].start, n, Free), Block(s[k].start + n, s[k].size - n, Free)] + s[k + 1..]
  {
  }

  /**
   * The heart of the round trip: in a list with no free neighbours, releasing
   * the block just split off for an owner with no earlier block and
   * coalescing gives back the original list.
   */
  lemma SplitThenRelease(s: seq<Block>, k: nat, p: ProcessId, n: nat)
    requires NoAdjacentFree(s) && n > 0
    requires k < |s| && Fits(s[k], n)
    requires forall j :: 0 <= j < k ==> s[j].status != Used(p)
    ensures FindOwnedScan(Split(s, k, p, n), p, 0) == Some(k)
    ensures Coalesce(Release(Split(s, k, p, n), k)) == s
  {
    SplitFirstOwned(s, k, p, n);
    if s[k].size == n {
      ExactSplitRestored(s, k, p, n);
    } else {
      PartialSplitRestored(s, k, p, n);
    }
  }

  lemma ExactSplitRestored(s: seq<Block>, k: nat, p: ProcessId, n: nat)
    requires NoAdjacentFree(s) && n > 0
    requires k < |s| && Fits(s[k], n) && s[k].size == n
    ensures Coalesce(Release(Split(s, k, p, n), k)) == s
  {
    ReleaseSplit(s, k, p, n);
    HeadClean(s, k);
    assert s == s[..k] + [s[k]] + s[k + 1..];
    assert s[k].(status := Free) == s[k];
    RestoreExact(s[..k], s[k], s[k + 1..]);
  }

  lemma PartialSplitRestored(s: seq<Block>, k: nat, p: ProcessId, n: nat)
    requires NoAdjacentFree(s) && n > 0
    requires k < |s| && Fits(s[k], n) && s[k].size > n
    ensures Coalesce(Release(Split(s, k, p, n), k)) == s
  {
    ReleaseSplit(s, k, p, n);
    HeadClean(s, k);
    var f1, f2 := Block(s[k].start, n, Free), Block(s[k].start + n, s[k].size - n, Free);
    assert s[k] == f1.(size := f1.size + f2.size);
    assert s[..k] + [s[k]] + s[k + 1..] == s;
    RestoreMerged(s[..k], f1, f2, s[k], s[k + 1..]);
  }

  /** The blocks before a free block of a coalesced list are coalesced and end in a used block. */
  lemma HeadClean(s: seq<Block>, k: nat)
    requires NoAdjacentFree(s) && k < |s| && s[k].IsFree()
    ensures Coalesce(s[..k]) == s[..k]
    ensures k > 0 ==> !Last(s[..k]).IsFree()
  {
    NoAdjacentFreePrefix(s, k);
    CoalesceClean(s[..k]);
    assert k > 0 ==> Last(s[..k]) == s[k - 1];
  }

  lemma RestoreExact(head: seq<Block>, b: Block, rest: seq<Block>)
    requires Coalesce(head) == head
    requires |head| > 0 ==> !Last(head).IsFree()
    requires NoAdjacentFree(head + [b] + rest)
    ensures Coalesce(head + [b] + rest) == head + [b] + rest
  {
    CoalesceAppendOne(head, b);
    PushAppends(head, b);
    CoalesceExtend(head + [b], rest);
  }

  lemma RestoreMerged(head: seq<Block>, f1: Block, f2: Block, b: Block, rest: seq<Block>)
    requires Coalesce(head) == head
    requires |head| > 0 ==> !Last(head).IsFree()
    requires f1.IsFree() && f2.IsFree() && b == f1.(size := f1.size + f2.size)
    requires NoAdjacentFree(head + [b] + rest)
    ensures Coalesce(head + [f1, f2] + rest) == head + [b] + rest
  {
    CoalesceAppendOne(head, f1);
    PushAppends(head, f1);
    assert head + [f1, f2] == (head + [f1]) + [f2];
    CoalesceAppendOne(head + [f1], f2);
    assert (head + [f1])[..|head|] == head;
    assert Coalesce(head + [f1, f2]) == head + [b];
    CoalesceExtend(head + [f1, f2], rest);
  }
}
