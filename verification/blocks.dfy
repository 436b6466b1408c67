/**
 * Data model of the contiguous-memory allocator: one address space
 * [0, total) held as an ordered list of blocks, each either free or used by
 * one process, and the invariants every public operation keeps.
 */
module Blocks {

  /** The identifier a process is allocated under (a text field in the UI). */
  type ProcessId = string

  datatype Option<T> = None | Some(value: T)

  /** A block is free, or used by the process that owns it; a free block has no owner. */
  datatype Status = Free | Used(owner: ProcessId)

  /** A contiguous region `[start, start + size)` of the address space. */
  datatype Block = Block(start: nat, size: nat, status: Status) {
    function End(): nat { start + size }
    predicate IsFree() { status.Free? }
  }

  function Last(s: seq<Block>): Block
    requires |s| > 0
  {
    s[|s| - 1]
  }

  /** Each block begins exactly where its predecessor ends: no gap, no overlap. */
  predicate Contiguous(s: seq<Block>) {
    forall i :: 0 <= i < |s| - 1 ==> s[i].End() == s[i + 1].start
  }

  /** The blocks tile `[0, total)` exactly. */
  predicate Tiles(s: seq<Block>, total: nat) {
    && |s| > 0
    && s[0].start == 0
    && Contiguous(s)
    && Last(s).End() == total
  }

  predicate PositiveSizes(s: seq<Block>) {
    forall i :: 0 <= i < |s| ==> s[i].size > 0
  }

  /** The coalescing invariant: free neighbours are always merged. */
  predicate NoAdjacentFree(s: seq<Block>) {
    forall i :: 0 <= i < |s| - 1 ==> !(s[i].IsFree() && s[i + 1].IsFree())
  }

  /**
   * The order the defensive sort of the merge pass establishes: starts never
   * decrease, so a stable sort by start leaves the list as it is. Every
   * contiguous list has it.
   */
  predicate SortedByStart(s: seq<Block>) {
    forall i :: 0 <= i < |s| - 1 ==> s[i].start <= s[i + 1].start
  }

  /** The invariant of a manager of capacity `total` between operations. */
  predicate Valid(s: seq<Block>, total: nat) {
    Tiles(s, total) && PositiveSizes(s) && NoAdjacentFree(s)
  }

  predicate HasOwner(s: seq<Block>, p: ProcessId) {
    exists j :: 0 <= j < |s| && s[j].status == Used(p)
  }

  /** Sum of the sizes of all blocks. */
  function TotalSize(s: seq<Block>): nat
    decreases |s|
  {
    if |s| == 0 then 0 else TotalSize(s[..|s| - 1]) + Last(s).size
  }

  /** The used blocks, in address order. */
  function UsedBlocks(s: seq<Block>): seq<Block>
    decreases |s|
  {
    if |s| == 0 then []
    else if Last(s).IsFree() then UsedBlocks(s[..|s| - 1])
    else UsedBlocks(s[..|s| - 1]) + [Last(s)]
  }

  /** `UsedBlocks` keeps exactly the used blocks. */
  lemma {:induction false} UsedBlocksMembers(s: seq<Block>)
    ensures forall b :: b in UsedBlocks(s) ==> b in s && !b.IsFree()
    ensures forall j :: 0 <= j < |s| && !s[j].IsFree() ==> s[j] in UsedBlocks(s)
    decreases |s|
  {
    if |s| > 0 {
      var pre := s[..|s| - 1];
      UsedBlocksMembers(pre);
      assert s == pre + [Last(s)];
      forall j | 0 <= j < |s| - 1
        ensures s[j] == pre[j]
      {
      }
    }
  }

  lemma {:induction false} TotalSizeAppend(a: seq<Block>, b: seq<Block>)
    ensures TotalSize(a + b) == TotalSize(a) + TotalSize(b)
    decreases |b|
  {
    if |b| > 0 {
      assert (a + b)[..|a + b| - 1] == a + b[..|b| - 1];
      TotalSizeAppend(a, b[..|b| - 1]);
    } else {
      assert a + b == a;
    }
  }

  lemma {:induction false} UsedBlocksAppend(a: seq<Block>, b: seq<Block>)
    ensures UsedBlocks(a + b) == UsedBlocks(a) + UsedBlocks(b)
    decreases |b|
  {
    if |b| > 0 {
      assert (a + b)[..|a + b| - 1] == a + b[..|b| - 1];
      UsedBlocksAppend(a, b[..|b| - 1]);
    } else {
      assert a + b == a;
    }
  }

  /** Replacing a block by one of the same size keeps the total size. */
  lemma {:induction false} TotalSizeUpdate(s: seq<Block>, k: nat, b: Block)
    requires k < |s| && b.size == s[k].size
    ensures TotalSize(s[k := b]) == TotalSize(s)
    decreases |s|
  {
    var t := s[k := b];
    if k == |s| - 1 {
      assert t[..|t| - 1] == s[..|s| - 1];
    } else {
      assert t[..|t| - 1] == s[..|s| - 1][k := b];
      TotalSizeUpdate(s[..|s| - 1], k, b);
    }
  }

  lemma NoAdjacentFreePrefix(s: seq<Block>, n: nat)
    requires NoAdjacentFree(s) && n <= |s|
    ensures NoAdjacentFree(s[..n])
  {
  }

  /** A contiguous list ends where its first block starts plus the sizes of all blocks. */
  lemma {:induction false} ContiguousEnd(s: seq<Block>)
    requires |s| > 0 && Contiguous(s)
    ensures Last(s).End() == s[0].start + TotalSize(s)
    decreases |s|
  {
    if |s| > 1 {
      var pre := s[..|s| - 1];
      assert Contiguous(pre) by {
        forall i | 0 <= i < |pre| - 1
          ensures pre[i].End() == pre[i + 1].start
        {
          assert pre[i] == s[i] && pre[i + 1] == s[i + 1];
        }
      }
      ContiguousEnd(pre);
      assert Last(pre) == s[|s| - 2];
    }
  }

  /** Tiling `[0, total)` means the block sizes add up to the capacity. */
  lemma TilesCoverCapacity(s: seq<Block>, total: nat)
    requires Tiles(s, total)
    ensures TotalSize(s) == total
  {
    ContiguousEnd(s);
  }
}
