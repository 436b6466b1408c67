/**
 * Allocation: the manager's state, its construction, the three placement
 * strategies (first-fit, best-fit, worst-fit) and the split that carves a
 * used block of exactly the requested size out of the chosen free block.
 */
module Allocation {
  import opened Blocks

  datatype Strategy = FirstFit | BestFit | WorstFit

  /** Whether an operation took effect; the source reports it as a message starting "SUCCESS" or "FAIL". */
  datatype Outcome = Success | Fail

  /** A memory manager: its fixed capacity and its current block list. */
  datatype Manager = Manager(total: nat, blocks: seq<Block>)

  /** What an allocation or deallocation returns: its outcome and the manager afterwards. */
  datatype Reply = Reply(outcome: Outcome, manager: Manager)

  /** A new manager holds one free block spanning the whole capacity. */
  function Init(total: nat): (m: Manager)
    ensures m.total == total && |m.blocks| == 1
    ensures m.blocks[0].IsFree() && m.blocks[0].start == 0
    ensures TotalSize(m.blocks) == total
    ensures total > 0 ==> Valid(m.blocks, total)
  {
    var s := [Block(0, total, Free)];
    assert s[..0] == [];
    Manager(total, s)
  }

  /** A block can hold a request of `n` units. */
  predicate Fits(b: Block, n: nat) {
    b.IsFree() && b.size >= n
  }

  predicate NoFit(s: seq<Block>, n: nat) {
    forall j :: 0 <= j < |s| ==> !Fits(s[j], n)
  }

  /** `k` is the lowest-index block that fits. */
  predicate IsFirstFit(s: seq<Block>, n: nat, k: nat) {
    k < |s| && Fits(s[k], n) && forall j :: 0 <= j < k ==> !Fits(s[j], n)
  }

  /**
   * Among the fitting blocks of `s[..upto]`, `k` leaves the least slack
   * `size - n`, and strictly less than every fitting block before it.
   */
  predicate BestAmong(s: seq<Block>, n: nat, k: nat, upto: nat)
    requires upto <= |s|
  {
    && k < upto && Fits(s[k], n)
    && (forall j :: 0 <= j < upto && Fits(s[j], n) ==> s[k].size - n <= s[j].size - n)
    && (forall j :: 0 <= j < k && Fits(s[j], n) ==> s[k].size - n < s[j].size - n)
  }

  /**
   * Among the fitting blocks of `s[..upto]`, `k` leaves the most slack, and
   * strictly more than every fitting block before it.
   */
  predicate WorstAmong(s: seq<Block>, n: nat, k: nat, upto: nat)
    requires upto <= |s|
  {
    && k < upto && Fits(s[k], n)
    && (forall j :: 0 <= j < upto && Fits(s[j], n) ==> s[k].size - n >= s[j].size - n)
    && (forall j :: 0 <= j < k && Fits(s[j], n) ==> s[k].size - n > s[j].size - n)
  }

  /** The selection rule of each strategy, stated over the whole list. */
  predicate Chosen(strategy: Strategy, s: seq<Block>, n: nat, k: nat) {
    match strategy
    case FirstFit => IsFirstFit(s, n, k)
    case BestFit => BestAmong(s, n, k, |s|)
    case WorstFit => WorstAmong(s, n, k, |s|)
  }

  /** The first-fit scan from index `i`: stops at the first fitting block. */
  function FirstFitScan(s: seq<Block>, n: nat, i: nat): (r: Option<nat>)
    requires i <= |s|
    requires forall j :: 0 <= j < i ==> !Fits(s[j], n)
    ensures r.Some? ==> IsFirstFit(s, n, r.value)
    ensures r.None? ==> NoFit(s, n)
    decreases |s| - i
  {
    if i == |s| then None
    else if Fits(s[i], n) then Some(i)
    else FirstFitScan(s, n, i + 1)
  }

  /**
   * The best-fit scan from index `i`. `best` is the block chosen so far;
   * `None` plays the part of the infinite initial minimum, and the current
   * minimum slack is `s[best].size - n`. A later block replaces it only
   * when its slack is strictly smaller.
   */
  function BestFitScan(s: seq<Block>, n: nat, i: nat, best: Option<nat>): (r: Option<nat>)
    requires i <= |s|
    requires best.None? ==> forall j :: 0 <= j < i ==> !Fits(s[j], n)
    requires best.Some? ==> BestAmong(s, n, best.value, i)
    ensures r.Some? ==> BestAmong(s, n, r.value, |s|)
    ensures r.None? ==> NoFit(s, n)
    decreases |s| - i
  {
    if i == |s| then best
    else if Fits(s[i], n) && (best.None? || s[i].size - n < s[best.value].size - n) then
      BestFitScan(s, n, i + 1, Some(i))
    else
      BestFitScan(s, n, i + 1, best)
  }

  /**
   * The worst-fit scan from index `i`, with the source's sentinels: `index`
   * is -1 and `maxSlack` is -1 until a fitting block is seen, so the first
   * fitting block (slack at least 0) is always taken. A later block replaces
   * the choice only when its slack is strictly larger.
   */
  function WorstFitScan(s: seq<Block>, n: nat, i: nat, index: int, maxSlack: int): (r: Option<nat>)
    requires i <= |s| && -1 <= index < i
    requires index == -1 ==> maxSlack == -1 && forall j :: 0 <= j < i ==> !Fits(s[j], n)
    requires index >= 0 ==> maxSlack == s[index].size - n && WorstAmong(s, n, index, i)
    ensures r.Some? ==> WorstAmong(s, n, r.value, |s|)
    ensures r.None? ==> NoFit(s, n)
    decreases |s| - i
  {
    if i == |s| then
      (if index != -1 then Some(index as nat) else None)
    else if Fits(s[i], n) && s[i].size - n > maxSlack then
      WorstFitScan(s, n, i + 1, i, s[i].size - n)
    else
      WorstFitScan(s, n, i + 1, index, maxSlack)
  }

  /** The block a strategy picks, or `None` when no free block is large enough. */
  function Select(strategy: Strategy, s: seq<Block>, n: nat): (r: Option<nat>)
    ensures r.Some? ==> Chosen(strategy, s, n, r.value)
    ensures r.None? <==> NoFit(s, n)
  {
    match strategy
    case FirstFit => FirstFitScan(s, n, 0)
    case BestFit => BestFitScan(s, n, 0, None)
    case WorstFit => WorstFitScan(s, n, 0, -1, -1)
  }

  /** Each strategy's rule singles out at most one block. */
  lemma ChosenUnique(strategy: Strategy, s: seq<Block>, n: nat, k1: nat, k2: nat)
    requires Chosen(strategy, s, n, k1) && Chosen(strategy, s, n, k2)
    ensures k1 == k2
  {
  }

  /** The scans implement the rules exactly: a strategy returns `k` if and only if its rule chooses `k`. */
  lemma SelectIff(strategy: Strategy, s: seq<Block>, n: nat, k: nat)
    ensures Select(strategy, s, n) == Some(k) <==> Chosen(strategy, s, n, k)
  {
  }

  /**
   * The worst-fit sentinel of -1 lies below every slack, so a block that
   * fits exactly is taken when it is the only one that fits.
   */
  lemma WorstFitTakesExactFit(s: seq<Block>, n: nat, k: nat)
    requires k < |s| && s[k].IsFree() && s[k].size == n
    requires forall j :: 0 <= j < |s| && j != k ==> !Fits(s[j], n)
    ensures Select(WorstFit, s, n) == Some(k)
  {
  }

  /**
   * Carve a used block of exactly `n` units for `p` out of block `k`: the
   * block keeps its start and becomes used; a larger block leaves its tail
   * as a new free block right after it.
   */
  function Split(s: seq<Block>, k: nat, p: ProcessId, n: nat): (r: seq<Block>)
    requires k < |s| && n <= s[k].size
    ensures |r| > k && r[..k] == s[..k]
    ensures r[k] == Block(s[k].start, n, Used(p))
    ensures s[k].size > n ==>
              && |r| == |s| + 1
              && r[k + 1] == Block(s[k].start + n, s[k].size - n, Free)
              && r[k + 2..] == s[k + 1..]
    ensures s[k].size == n ==> |r| == |s| && r[k + 1..] == s[k + 1..]
  {
    var b := s[k];
    var used := b.(size := n, status := Used(p));
    if b.size > n then
      s[..k] + [used, Block(b.start + n, b.size - n, Free)] + s[k + 1..]
    else
      s[..k] + [used] + s[k + 1..]
  }

  /**
   * Allocate `n` units to `p` with the given strategy. Nothing checks
   * whether `p` already owns a block: a second allocation under the same id
   * succeeds like any other.
   */
  function Allocate(m: Manager, strategy: Strategy, p: ProcessId, n: nat): (r: Reply)
    requires n > 0
    ensures r.manager.total == m.total
    ensures r.outcome == Fail <==> NoFit(m.blocks, n)
    ensures r.outcome == Fail ==> r.manager == m
    ensures r.outcome == Success ==>
              exists k :: 0 <= k < |m.blocks| && Fits(m.blocks[k], n) && Chosen(strategy, m.blocks, n, k)
                          && r.manager.blocks == Split(m.blocks, k, p, n)
  {
    match Select(strategy, m.blocks, n)
    case None => Reply(Fail, m)
    case Some(k) => Reply(Success, m.(blocks := Split(m.blocks, k, p, n)))
  }

  /** Splitting a fitting free block of a valid list keeps the list valid. */
  lemma SplitValid(s: seq<Block>, total: nat, k: nat, p: ProcessId, n: nat)
    requires Valid(s, total) && n > 0
    requires k < |s| && Fits(s[k], n)
    ensures Valid(Split(s, k, p, n), total)
  {
    if s[k].size == n {
      ExactSplitValid(s, total, k, p, n);
    } else {
      PartialSplitValid(s, total, k, p, n);
    }
  }

  lemma ExactSplitValid(s: seq<Block>, total: nat, k: nat, p: ProcessId, n: nat)
    requires Valid(s, total) && n > 0
    requires k < |s| && Fits(s[k], n) && s[k].size == n
    ensures Valid(Split(s, k, p, n), total)
  {
    var r := Split(s, k, p, n);
    forall i | 0 <= i < |r|
      ensures r[i].start == s[i].start && r[i].size == s[i].size
      ensures r[i].IsFree() ==> s[i].IsFree()
    {
      if i < k {
        assert r[i] == r[..k][i];
      } else if i > k {
        assert r[i] == r[k + 1..][i - k - 1];
      }
    }
  }

  lemma PartialSplitValid(s: seq<Block>, total: nat, k: nat, p: ProcessId, n: nat)
    requires Valid(s, total) && n > 0
    requires k < |s| && Fits(s[k], n) && s[k].size > n
    ensures Valid(Split(s, k, p, n), total)
  {
    PartialSplitContiguous(s, k, p, n);
    PartialSplitNoAdjacentFree(s, k, p, n);
    PartialSplitPositive(s, k, p, n);
    PartialSplitEnds(s, total, k, p, n);
  }

  lemma PartialSplitEnds(s: seq<Block>, total: nat, k: nat, p: ProcessId, n: nat)
    requires Tiles(s, total)
    requires k < |s| && n < s[k].size
    ensures Split(s, k, p, n)[0].start == 0
    ensures Last(Split(s, k, p, n)).End() == total
  {
  }

  lemma PartialSplitContiguous(s: seq<Block>, k: nat, p: ProcessId, n: nat)
    requires Contiguous(s)
    requires k < |s| && n < s[k].size
    ensures Contiguous(Split(s, k, p, n))
  {
  }

  lemma PartialSplitNoAdjacentFree(s: seq<Block>, k: nat, p: ProcessId, n: nat)
    requires NoAdjacentFree(s)
    requires k < |s| && s[k].IsFree() && n < s[k].size
    ensures NoAdjacentFree(Split(s, k, p, n))
  {
  }

  lemma PartialSplitPositive(s: seq<Block>, k: nat, p: ProcessId, n: nat)
    requires PositiveSizes(s) && n > 0
    requires k < |s| && n < s[k].size
    ensures PositiveSizes(Split(s, k, p, n))
  {
  }

  /** Allocation keeps a valid manager valid, whether it succeeds or fails. */
  lemma AllocateValid(m: Manager, strategy: Strategy, p: ProcessId, n: nat)
    requires Valid(m.blocks, m.total) && n > 0
    ensures Valid(Allocate(m, strategy, p, n).manager.blocks, m.total)
  {
    var r := Allocate(m, strategy, p, n);
    if r.outcome == Success {
      var k :| 0 <= k < |m.blocks| && Fits(m.blocks[k], n) && Chosen(strategy, m.blocks, n, k)
               && r.manager.blocks == Split(m.blocks, k, p, n);
      SplitValid(m.blocks, m.total, k, p, n);
    }
  }
}
