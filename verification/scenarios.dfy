/**
 * Worked examples of the allocator on concrete block lists: the strategies
 * disagreeing on one request, the fragmentation metric, a full session of
 * allocations and deallocations, and an id allocated twice.
 */
module Scenarios {
  import opened Blocks
  import opened Coalescing
  import opened Allocation
  import opened Deallocation
  import opened Fragmentation

  /** Free holes of 100, 50 and 200 units, in that address order, separated by used blocks. */
  function Holes(): seq<Block> {
    [ Block(0, 100, Free), Block(100, 10, Used("A")), Block(110, 50, Free),
      Block(160, 10, Used("B")), Block(170, 200, Free) ]
  }

  /** On a request of 40 units, first-fit takes the 100 hole, best-fit the 50, worst-fit the 200. */
  lemma StrategiesDisagree()
    ensures Valid(Holes(), 370)
    ensures Select(FirstFit, Holes(), 40) == Some(0)
    ensures Select(BestFit, Holes(), 40) == Some(2)
    ensures Select(WorstFit, Holes(), 40) == Some(4)
  {
    HolesValid();
    FirstFitOnHoles();
    BestFitOnHoles();
    WorstFitOnHoles();
  }

  lemma HolesValid()
    ensures Valid(Holes(), 370)
  {
  }

  lemma FirstFitOnHoles()
    ensures Select(FirstFit, Holes(), 40) == Some(0)
  {
  }

  lemma BestFitOnHoles()
    ensures Select(BestFit, Holes(), 40) == Some(2)
  {
  }

  lemma WorstFitOnHoles()
    ensures Select(WorstFit, Holes(), 40) == Some(4)
  {
  }

  /** Free holes of 10, 30 and 5 units, separated by used blocks. */
  function SmallHoles(): seq<Block> {
    [ Block(0, 10, Free), Block(10, 1, Used("A")), Block(11, 30, Free),
      Block(41, 1, Used("B")), Block(42, 5, Free) ]
  }

  /** Free holes of 10, 30 and 5 units leave 45 - 30 = 15 units of external fragmentation. */
  lemma FragmentationOfThreeHoles()
    ensures ExternalFragmentation(SmallHoles()) == 15
  {
    SmallHolesFreeSizes();
    var f: seq<nat> := [10, 30, 5];
    assert f[..2] == [10, 30] && f[..2][..1] == [10] && f[..2][..1][..0] == [];
    assert Sum(f[..2][..1][..0]) == 0;
    assert Sum(f[..2][..1]) == 10;
    assert Sum(f[..2]) == 40;
    assert Sum(f) == 45;
    assert Max(f) == 30;
  }

  lemma SmallHolesFreeSizes()
    ensures FreeSizes(SmallHoles()) == [10, 30, 5]
  {
    var b0, b1, b2, b3, b4 := Block(0, 10, Free), Block(10, 1, Used("A")), Block(11, 30, Free),
                              Block(41, 1, Used("B")), Block(42, 5, Free);
    assert [b0][..0] == [];
    assert FreeSizes([b0]) == [10];
    assert [b0, b1][..1] == [b0];
    assert FreeSizes([b0, b1]) == [10];
    assert [b0, b1, b2][..2] == [b0, b1];
    assert FreeSizes([b0, b1, b2]) == [10, 30];
    assert [b0, b1, b2, b3][..3] == [b0, b1, b2];
    assert FreeSizes([b0, b1, b2, b3]) == [10, 30];
    assert SmallHoles()[..4] == [b0, b1, b2, b3];
  }

  /**
   * A session on 1024 units: P1 takes 300 and P2 200 by first-fit;
   * releasing P1 leaves its hole apart from the tail because P2 sits
   * between them; releasing P2 merges all three free pieces into one.
   */
  lemma Session()
    ensures var a1 := Allocate(Init(1024), FirstFit, "P1", 300);
      && a1.outcome == Success
      && a1.manager.blocks == [Block(0, 300, Used("P1")), Block(300, 724, Free)]
    ensures var a2 := Allocate(Allocate(Init(1024), FirstFit, "P1", 300).manager, FirstFit, "P2", 200);
      && a2.outcome == Success
      && a2.manager.blocks == [Block(0, 300, Used("P1")), Block(300, 200, Used("P2")), Block(500, 524, Free)]
    ensures var d1 := Deallocate(Manager(1024, [Block(0, 300, Used("P1")), Block(300, 200, Used("P2")), Block(500, 524, Free)]), "P1");
      && d1.outcome == Success
      && d1.manager.blocks == [Block(0, 300, Free), Block(300, 200, Used("P2")), Block(500, 524, Free)]
    ensures var d2 := Deallocate(Manager(1024, [Block(0, 300, Free), Block(300, 200, Used("P2")), Block(500, 524, Free)]), "P2");
      && d2.outcome == Success
      && d2.manager.blocks == [Block(0, 1024, Free)]
  {
    FirstStep();
    SecondStep();
    ThirdStep();
    FourthStep();
  }

  lemma FirstStep()
    ensures var a1 := Allocate(Init(1024), FirstFit, "P1", 300);
      && a1.outcome == Success
      && a1.manager.blocks == [Block(0, 300, Used("P1")), Block(300, 724, Free)]
  {
  }

  lemma SecondStep()
    ensures var a2 := Allocate(Manager(1024, [Block(0, 300, Used("P1")), Block(300, 724, Free)]), FirstFit, "P2", 200);
      && a2.outcome == Success
      && a2.manager.blocks == [Block(0, 300, Used("P1")), Block(300, 200, Used("P2")), Block(500, 524, Free)]
  {
  }

  lemma ThirdStep()
    ensures var d1 := Deallocate(Manager(1024, [Block(0, 300, Used("P1")), Block(300, 200, Used("P2")), Block(500, 524, Free)]), "P1");
      && d1.outcome == Success
      && d1.manager.blocks == [Block(0, 300, Free), Block(300, 200, Used("P2")), Block(500, 524, Free)]
  {
    var s := [Block(0, 300, Used("P1")), Block(300, 200, Used("P2")), Block(500, 524, Free)];
    assert FindOwnedScan(s, "P1", 0) == Some(0);
    var t := Release(s, 0);
    assert t == [Block(0, 300, Free), Block(300, 200, Used("P2")), Block(500, 524, Free)];
    assert NoAdjacentFree(t);
    CoalesceClean(t);
  }

  lemma FourthStep()
    ensures var d2 := Deallocate(Manager(1024, [Block(0, 300, Free), Block(300, 200, Used("P2")), Block(500, 524, Free)]), "P2");
      && d2.outcome == Success
      && d2.manager.blocks == [Block(0, 1024, Free)]
  {
    var s := [Block(0, 300, Free), Block(300, 200, Used("P2")), Block(500, 524, Free)];
    assert !(s[0].status == Used("P2"));
    assert FindOwnedScan(s, "P2", 0) == Some(1);
    var t := Release(s, 1);
    var f0 := Block(0, 300, Free);
    var f1 := Block(300, 200, Free);
    var f2 := Block(500, 524, Free);
    assert t == [f0, f1, f2];
    CoalesceAppendOne([], f0);
    assert Coalesce([]) == [];
    assert Coalesce([f0]) == [f0];
    CoalesceAppendOne([f0], f1);
    assert Coalesce([f0, f1]) == [Block(0, 500, Free)];
    CoalesceAppendOne([f0, f1], f2);
    assert [f0, f1] + [f2] == t;
  }

  /**
   * An id allocated twice: the second allocation is not refused, and
   * deallocating the id releases only the first of its two blocks.
   */
  lemma DuplicateId()
    ensures var s := [Block(0, 10, Used("P")), Block(10, 20, Used("P")), Block(30, 70, Free)];
      && Allocate(Manager(100, [Block(0, 10, Used("P")), Block(10, 90, Free)]), FirstFit, "P", 20)
         == Reply(Success, Manager(100, s))
      && Deallocate(Manager(100, s), "P")
         == Reply(Success, Manager(100, [Block(0, 10, Free), Block(10, 20, Used("P")), Block(30, 70, Free)]))
  {
    var s0 := [Block(0, 10, Used("P")), Block(10, 90, Free)];
    assert Fits(s0[1], 20);
    assert Select(FirstFit, s0, 20) == Some(1);
    assert s0[..1] == [s0[0]] && s0[2..] == [];
    var s := [Block(0, 10, Used("P")), Block(10, 20, Used("P")), Block(30, 70, Free)];
    assert FindOwnedScan(s, "P", 0) == Some(0);
    var t := Release(s, 0);
    assert t == [Block(0, 10, Free), Block(10, 20, Used("P")), Block(30, 70, Free)];
    assert NoAdjacentFree(t);
    CoalesceClean(t);
  }
}
