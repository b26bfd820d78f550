/** From the page tables the processor already uses to a memory manager and a heap that can be used. */
module Startup {
  import opened PageTree
  import opened Pager
  import opened Partition
  import opened Initializer
  import opened MemoryManager
  import opened MemoryState
  import opened HeapArrays
  import opened AslrTree
  import opened RangeSets
  import opened Words

  /** What the code that builds the page tables must have left behind, with the reserve at physical address resPhy. */
  ghost predicate Startable(pml4: PageTreeNode, reserve: Reserve, smap: seq<SmapEntry>, reserveStart: u64,
                            reserveLength: nat, resPhy: nat)
    reads pml4, pml4.tables, reserve
  {
    && Ready(pml4, reserve) && reserveStart % 0x1000 == 0 && reserveLength % 0x1000 == 0
    && (exists q: nat :: q < LINEAR_PAGES && Translation(pml4, q).Some?)
    && SmallPatClear(3, pml4.model, reserveStart / 0x1000 % 0x10_0000_0000)
    && FoundAt(pml4.model, reserveStart / 0x1000 % 0x10_0000_0000, resPhy)
    && MapOk(smap, resPhy, reserveLength, reserve.foreign, pml4.pa)
    && SpaceUnmapped(pml4.model, reserveStart, reserveLength)
  }

  /** Managers without memory over the tree in use, which is not touched. */
  method NewManagers(pml4: PageTreeNode, reserve: Reserve) returns (memory: MemoryManager)
    requires Ready(pml4, reserve) && exists q: nat :: q < LINEAR_PAGES && Translation(pml4, q).Some?
    ensures memory.Valid() && fresh(memory.Repr() - pml4.tables - {reserve})
    ensures memory.pml4 == pml4 && memory.reserve == reserve
    ensures memory.live == map[] && memory.phys.free == {} && memory.lin.free == {}
  {
    hide MemoryManager.Valid, Ready;
    ghost var q: nat :| q < LINEAR_PAGES && Translation(pml4, q).Some?;
    var source := new RandomSource();
    assert Translation(pml4, q).Some?;
    memory := new MemoryManager(pml4, reserve, source);
  }

  /** Sets up the managers over the tree in use. */
  method StartMemory(pml4: PageTreeNode, reserve: Reserve, smap: seq<SmapEntry>, reserveStart: u64, reserveLength: nat,
                     ghost resPhy: nat) returns (memory: MemoryManager)
    requires Startable(pml4, reserve, smap, reserveStart, reserveLength, resPhy)
    modifies pml4.tables, reserve
    ensures memory.Valid() && fresh(memory.Repr() - old(pml4.tables) - {reserve})
    ensures memory.pml4 == pml4 && memory.reserve == reserve && pml4.model == old(pml4.model)
    ensures memory.live == map[] && PhysicalGiven(memory.phys.free, smap, resPhy, reserveLength)
    ensures LinearGiven(memory.lin.free, reserveStart, reserveLength)
  {
    hide MemoryManager.Valid, Ready, SmallPatClear, MapOk, SpaceUnmapped, PhysicalGiven, LinearGiven;
    memory := NewManagers(pml4, reserve);
    Initialize(memory, smap, reserveStart, reserveLength, resPhy);
  }

  /** Sets up the managers and the array space of the heap. Nothing is allocated yet; free is all that the firmware's
      map offers and all of the linear space, but for the first megabyte and the reserve. Apart from the tables in use
      and the reserve all this is made of new objects, so that whoever calls this can go on with it. */
  method Start(pml4: PageTreeNode, reserve: Reserve, smap: seq<SmapEntry>, reserveStart: u64, reserveLength: nat,
               ghost resPhy: nat) returns (space: ArraySpace)
    requires Startable(pml4, reserve, smap, reserveStart, reserveLength, resPhy)
    modifies pml4.tables, reserve
    ensures space.Valid() && fresh(space.Repr() - old(pml4.tables) - {reserve})
    ensures space.memory.pml4 == pml4 && space.memory.reserve == reserve && pml4.model == old(pml4.model)
    ensures space.live == map[] && space.memory.live == map[]
    ensures forall b: nat :: IsFree(space.memory.phys.free, b) <==>
              && b >= 0x10_0000 && !(resPhy <= b < resPhy + reserveLength)
              && exists k :: 0 <= k < |smap| && WholePage(smap[k], b)
    ensures forall b: nat :: IsFree(space.memory.lin.free, b) <==>
              0x10_0000 <= b < 0x8000_0000_0000 && !(reserveStart <= b < reserveStart + reserveLength)
  {
    hide MemoryManager.Valid, ArraySpace.Valid, Startable, IsFree, WholePage;
    var memory := StartMemory(pml4, reserve, smap, reserveStart, reserveLength, resPhy);
    space := new ArraySpace(memory);
  }
}
