/**
 The arena as an object. Every method is tied to the operation of ArenaSpec it performs;
 the blocks live in a 16-slot array with an overflow vector behind it, and memory comes
 from and goes back to a system that checks each release against what it handed out.
 */
module ArenaObject {
  import opened Options
  import opened ArenaMath
  import opened ArenaSpec

  const INLINE_BLOCKS := 16

  /** Memory in use in the process: alignment is 0 for plain operator new. */
  datatype Grant = Grant(mem: nat, size: nat, alignment: nat)

  predicate GrantsApart(g: Grant, h: Grant) {
    g.mem + g.size <= h.mem || h.mem + h.size <= g.mem
  }

  function GrantOf(b: Block): Grant {
    Grant(b.mem, b.size, if b.alignment > NEW_ALIGNMENT then b.alignment else 0)
  }

  /** operator new and delete, and the bytes behind the addresses. */
  class System {
    ghost var inUse: set<Grant>
    var top: nat

    ghost predicate Valid()
      reads this
    {
      && (forall g :: g in inUse ==> 0 < g.mem && 0 < g.size && g.mem + g.size <= top)
      && (forall g, h :: g in inUse && h in inUse && g != h ==> GrantsApart(g, h))
    }

    constructor ()
      ensures Valid() && inUse == {}
    {
      inUse, top := {}, 1;
    }

    method Allocate(size: nat, alignment: nat) returns (mem: nat)
      requires Valid() && size > 0 && alignment > 0
      modifies this`inUse, this`top
      ensures Valid() && mem > 0 && mem % alignment == 0
      ensures var g := GrantOf(Block(mem, size, alignment));
              && inUse == old(inUse) + {g} && g !in old(inUse)
              && forall h :: h in old(inUse) ==> GrantsApart(g, h)
    {
      mem := (top / alignment + 1) * alignment;
      var q := top / alignment;
      assert mem == alignment * (q + 1) + 0 && mem == alignment * q + alignment;
      RemainderUnique(mem, alignment, q + 1, 0);
      assert mem > top;
      inUse := inUse + {GrantOf(Block(mem, size, alignment))};
      top := mem + size;
    }

    /** A release must name exactly a block that is in use, with its size and kind. */
    method Deallocate(block: Block)
      requires Valid() && GrantOf(block) in inUse
      modifies this`inUse
      ensures Valid() && inUse == old(inUse) - {GrantOf(block)}
    {
      inUse := inUse - {GrantOf(block)};
    }
  }

  /** The contents of memory. */
  class Memory {
    var ram: Ram

    constructor ()
    {
      ram := map[];
    }

    method Memcpy(dst: nat, src: nat, n: nat)
      modifies this
      ensures ram == Copied(old(ram), dst, src, n)
    {
      for i := 0 to n
        invariant ram == Copied(old(ram), dst, src, i)
      {
        ram := ram[dst + i := Byte(ram, src + i)];
      }
    }
  }

  // ---------------------------------------------------------------------------
  // Which memory belongs to a list of blocks
  // ---------------------------------------------------------------------------

  ghost function Grants(blocks: seq<Block>): set<Grant> {
    if blocks == [] then {}
    else Grants(blocks[..|blocks| - 1]) + {GrantOf(blocks[|blocks| - 1])}
  }

  lemma GrantsAppend(blocks: seq<Block>, b: Block)
    ensures Grants(blocks + [b]) == Grants(blocks) + {GrantOf(b)}
  {
    assert (blocks + [b])[..|blocks + [b]| - 1] == blocks;
  }

  lemma {:induction false} GrantsHas(blocks: seq<Block>, g: Grant)
    ensures g in Grants(blocks) <==> exists i :: 0 <= i < |blocks| && GrantOf(blocks[i]) == g
  {
    if blocks != [] {
      var front := blocks[..|blocks| - 1];
      GrantsHas(front, g);
      if i :| 0 <= i < |front| && GrantOf(front[i]) == g {
        assert GrantOf(blocks[i]) == g;
      }
      if i :| 0 <= i < |blocks| && GrantOf(blocks[i]) == g && i < |blocks| - 1 {
        assert GrantOf(front[i]) == g;
      }
    }
  }

  /** The blocks lie apart from each other, and the system granted all but an external first one. */
  ghost predicate Owned(blocks: seq<Block>, external: bool, owner: Grant, inUse: set<Grant>) {
    && |blocks| > 0
    && (forall i :: 0 <= i < |blocks| ==> blocks[i].mem > 0)
    && (forall i, j :: 0 <= i < j < |blocks| ==> BlocksApart(blocks[i], blocks[j]))
    && (forall i :: (if external then 1 else 0) <= i < |blocks| ==> blocks[i].size > 0 && GrantOf(blocks[i]) in inUse)
    && (external ==>
          && owner in inUse
          && owner.mem <= blocks[0].mem && blocks[0].mem + blocks[0].size <= owner.mem + owner.size
          && forall i :: 1 <= i < |blocks| ==> GrantOf(blocks[i]) != owner)
  }

  lemma OwnedGrows(blocks: seq<Block>, external: bool, owner: Grant, inUse: set<Grant>, b: Block)
    requires Owned(blocks, external, owner, inUse) && b.mem > 0 && b.size > 0
    requires forall h :: h in inUse ==> GrantsApart(GrantOf(b), h)
    requires forall h :: h in inUse ==> h.size > 0
    ensures Owned(blocks + [b], external, owner, inUse + {GrantOf(b)})
    ensures forall i :: 0 <= i < |blocks| ==> BlocksApart(blocks[i], b)
  {
    forall i | 0 <= i < |blocks| ensures BlocksApart(blocks[i], b) {
      if external && i == 0 {
        assert GrantsApart(GrantOf(b), owner);
      } else {
        assert GrantsApart(GrantOf(b), GrantOf(blocks[i]));
      }
    }
    var more := blocks + [b];
    assert external ==> GrantsApart(GrantOf(b), owner);
    assert forall i :: 0 <= i < |blocks| ==> more[i] == blocks[i];
  }

  lemma OwnedIsDistinct(blocks: seq<Block>, external: bool, owner: Grant, inUse: set<Grant>, i: nat)
    requires Owned(blocks, external, owner, inUse) && 1 <= i < |blocks|
    ensures GrantOf(blocks[i]) in inUse - Grants(blocks[1..i])
  {
    var g := GrantOf(blocks[i]);
    GrantsHas(blocks[1..i], g);
    forall k | 0 <= k < |blocks[1..i]| ensures GrantOf(blocks[1..i][k]) != g {
      assert BlocksApart(blocks[1 + k], blocks[i]);
    }
  }

  ghost function HeldBy(blocks: seq<Block>, external: bool): set<Grant>
    requires |blocks| > 0
  {
    Grants(blocks[1..]) + (if external then {} else {GrantOf(blocks[0])})
  }

  lemma HeldGrows(blocks: seq<Block>, external: bool, b: Block)
    requires |blocks| > 0
    ensures HeldBy(blocks + [b], external) == HeldBy(blocks, external) + {GrantOf(b)}
  {
    assert (blocks + [b])[1..] == blocks[1..] + [b];
    GrantsAppend(blocks[1..], b);
  }

  /** What is in use once the blocks before i, except the first, have been released. */
  ghost function After(used: set<Grant>, blocks: seq<Block>, i: nat): set<Grant>
    requires 1 <= i <= |blocks|
  {
    used - Grants(blocks[1..i])
  }

  lemma ReleaseStep(blocks: seq<Block>, external: bool, owner: Grant, used: set<Grant>, i: nat)
    requires Owned(blocks, external, owner, used) && 1 <= i < |blocks|
    ensures GrantOf(blocks[i]) in After(used, blocks, i)
    ensures After(used, blocks, i + 1) == After(used, blocks, i) - {GrantOf(blocks[i])}
  {
    OwnedIsDistinct(blocks, external, owner, used, i);
    assert blocks[1..i + 1] == blocks[1..i] + [blocks[i]];
    GrantsAppend(blocks[1..i], blocks[i]);
  }

  lemma OthersKept(blocks: seq<Block>, external: bool, used: set<Grant>)
    requires |blocks| > 0
    ensures (used - Grants(blocks[1..])) - HeldBy([blocks[0]], external) == used - HeldBy(blocks, external)
  {
    assert [blocks[0]][1..] == [];
  }

  lemma OwnedShrinks(blocks: seq<Block>, external: bool, owner: Grant, inUse: set<Grant>)
    requires Owned(blocks, external, owner, inUse)
    ensures Owned([blocks[0]], external, owner, inUse - Grants(blocks[1..]))
    ensures !external ==> GrantOf(blocks[0]) !in Grants(blocks[1..])
  {
    var rest := blocks[1..];
    GrantsHas(rest, owner);
    GrantsHas(rest, GrantOf(blocks[0]));
    forall k | 0 <= k < |rest|
      ensures !external ==> GrantOf(rest[k]) != GrantOf(blocks[0])
      ensures external ==> GrantOf(rest[k]) != owner
    {
      assert BlocksApart(blocks[0], blocks[1 + k]);
    }
  }

  /**
   first_blocks_, overflow_blocks_ and blocks_alloced_: the blocks of one arena, and the
   memory behind them.
   */
  class BlockTable {
    const sys: System
    const firstBlockExternallyOwned: bool
    const firstBlocks: array<Block>
    var blocksAlloced: nat
    var overflowBlocks: Option<seq<Block>>

    ghost const owner: Grant       // whose memory an external first block is
    ghost var blocks: seq<Block>   // the array and the vector, in order

    ghost predicate Stored()
      reads this, firstBlocks
    {
      && firstBlocks.Length == INLINE_BLOCKS && 1 <= blocksAlloced <= INLINE_BLOCKS
      && (overflowBlocks.Some? ==> blocksAlloced == INLINE_BLOCKS && overflowBlocks.value != [])
      && blocks == firstBlocks[..blocksAlloced] + (if overflowBlocks.Some? then overflowBlocks.value else [])
    }

    ghost predicate Valid()
      reads this, firstBlocks, sys
    {
      && Stored()
      && sys.Valid()
      && Owned(blocks, firstBlockExternallyOwned, owner, sys.inUse)
    }

    /** The memory this arena must give back. */
    ghost function Held(): set<Grant>
      requires |blocks| > 0
      reads this
    {
      HeldBy(blocks, firstBlockExternallyOwned)
    }

    /** The memory of others. */
    ghost function Others(): set<Grant>
      requires |blocks| > 0
      reads this, sys
    {
      sys.inUse - Held()
    }

    constructor (sys: System, first: Block, external: bool, ghost owner: Grant)
      requires sys.Valid() && Owned([first], external, owner, sys.inUse)
      ensures Valid() && fresh(firstBlocks) && blocks == [first]
      ensures this.sys == sys && firstBlockExternallyOwned == external && this.owner == owner
    {
      this.sys, this.firstBlockExternallyOwned, this.owner := sys, external, owner;
      var slots := new Block[INLINE_BLOCKS](i => Block(0, 0, 0));
      slots[0] := first;
      firstBlocks, blocksAlloced, overflowBlocks, blocks := slots, 1, None, [first];
    }

    method BlockCount() returns (n: nat)
      requires Stored()
      ensures n == |blocks|
    {
      n := blocksAlloced + (if overflowBlocks.Some? then |overflowBlocks.value| else 0);
    }

    /** Puts a block into the array while it has room, and into the vector after that. */
    method Record(block: Block)
      requires Stored()
      modifies this, firstBlocks
      ensures Stored() && blocks == old(blocks) + [block]
    {
      if blocksAlloced < INLINE_BLOCKS {
        firstBlocks[blocksAlloced] := block;
        blocksAlloced := blocksAlloced + 1;
      } else {
        if overflowBlocks.None? {
          overflowBlocks := Some([]);
        }
        overflowBlocks := Some(overflowBlocks.value + [block]);
      }
      blocks := blocks + [block];
    }

    /** Obtains memory for a new block and records it. */
    method Add(size: nat, alignment: nat) returns (block: Block)
      requires Valid() && size > 0 && alignment > 0
      modifies this, firstBlocks, sys`inUse, sys`top
      ensures Valid() && blocks == old(blocks) + [block] && Others() == old(Others())
      ensures block == Block(block.mem, size, alignment) && block.mem > 0
      ensures block.mem % (if alignment > NEW_ALIGNMENT then alignment else NEW_ALIGNMENT) == 0
      ensures forall i :: 0 <= i < |old(blocks)| ==> BlocksApart(old(blocks)[i], block)
    {
      ghost var used := sys.inUse;
      var mem := sys.Allocate(size, if alignment > NEW_ALIGNMENT then alignment else NEW_ALIGNMENT);
      block := Block(mem, size, alignment);
      OwnedGrows(blocks, firstBlockExternallyOwned, owner, used, block);
      HeldGrows(blocks, firstBlockExternallyOwned, block);
      Record(block);
    }

    method FreeInline()
      requires Valid()
      modifies firstBlocks, sys`inUse
      ensures firstBlocks[0] == old(firstBlocks[0]) && blocksAlloced <= |blocks|
      ensures sys.Valid() && sys.inUse == After(old(sys.inUse), blocks, blocksAlloced)
    {
      ghost var used := sys.inUse;
      assert blocks[1..1] == [];
      for i := 1 to blocksAlloced
        invariant sys.Valid() && sys.inUse == After(used, blocks, i)
        invariant firstBlocks[0] == blocks[0] && forall k :: i <= k < blocksAlloced ==> firstBlocks[k] == blocks[k]
      {
        ReleaseStep(blocks, firstBlockExternallyOwned, owner, used, i);
        sys.Deallocate(firstBlocks[i]);
        firstBlocks[i] := firstBlocks[i].(mem := 0, size := 0);
      }
    }

    method FreeOverflow(spare: seq<Block>, ghost n: nat, ghost used: set<Grant>)
      requires 1 <= n <= |blocks| && blocks[n..] == spare
      requires Owned(blocks, firstBlockExternallyOwned, owner, used)
      requires sys.Valid() && sys.inUse == After(used, blocks, n)
      modifies sys`inUse
      ensures sys.Valid() && sys.inUse == After(used, blocks, |blocks|)
    {
      for i := 0 to |spare|
        invariant sys.Valid() && sys.inUse == After(used, blocks, n + i)
      {
        ReleaseStep(blocks, firstBlockExternallyOwned, owner, used, n + i);
        assert spare[i] == blocks[n + i];
        sys.Deallocate(spare[i]);
      }
    }

    /** Gives every block but the first back to the system. */
    method FreeBlocks()
      requires Valid()
      modifies this, firstBlocks, sys`inUse
      ensures Valid() && blocks == [old(blocks)[0]] && Others() == old(Others())
    {
      ghost var all, used := blocks, sys.inUse;
      FreeInline();
      if overflowBlocks.Some? {
        FreeOverflow(overflowBlocks.value, blocksAlloced, used);
      }
      OwnedShrinks(all, firstBlockExternallyOwned, owner, used);
      OthersKept(all, firstBlockExternallyOwned, used);
      assert all[1..|all|] == all[1..];
      blocksAlloced, overflowBlocks, blocks := 1, None, [all[0]];
    }

    /** What the destructor does with the blocks: all memory obtained goes back. */
    method Release()
      requires Valid()
      modifies this, firstBlocks, sys`inUse
      ensures sys.Valid() && sys.inUse == old(Others())
    {
      FreeBlocks();
      ghost var used := sys.inUse;
      assert blocks[1..] == [];
      assert Held() == if firstBlockExternallyOwned then {} else {GrantOf(blocks[0])};
      for i := if firstBlockExternallyOwned then 1 else 0 to blocksAlloced
        modifies sys`inUse
        invariant sys.Valid() && 0 <= i
        invariant sys.inUse == if i == 1 then used - Held() else used
      {
        sys.Deallocate(firstBlocks[i]);
      }
    }
  }

  lemma FirstBlockAligned(block: Block, pageSize: nat, alignToPage: bool)
    requires alignToPage ==> IsPow2(pageSize) && pageSize > NEW_ALIGNMENT
    requires block.mem % (if alignToPage then pageSize else NEW_ALIGNMENT) == 0
    ensures block.mem % DEFAULT_ALIGNMENT == 0
  {
    assert IsPow2(4) && IsPow2(DEFAULT_ALIGNMENT) && IsPow2(NEW_ALIGNMENT);
    AlignedToLarger(block.mem, DEFAULT_ALIGNMENT, if alignToPage then pageSize else NEW_ALIGNMENT);
  }

  /** The first block of an arena that is given none. */
  method ObtainFirst(sys: System, size: nat, alignToPage: bool, pageSize: nat) returns (block: Block)
    requires sys.Valid() && size > 0 && (alignToPage ==> IsPow2(pageSize) && pageSize > NEW_ALIGNMENT)
    modifies sys`inUse, sys`top
    ensures sys.Valid() && block.mem > 0 && block.size == size && block.mem % DEFAULT_ALIGNMENT == 0
    ensures GrantOf(block) !in old(sys.inUse) && sys.inUse == old(sys.inUse) + {GrantOf(block)}
    ensures forall h :: h in old(sys.inUse) ==> GrantsApart(GrantOf(block), h)
  {
    var mem;
    if alignToPage {
      mem := sys.Allocate(size, pageSize);
      block := Block(mem, size, pageSize);
    } else {
      mem := sys.Allocate(size, NEW_ALIGNMENT);
      block := Block(mem, size, 0);
    }
    FirstBlockAligned(block, pageSize, alignToPage);
  }

  class BaseArena {
    const table: BlockTable
    const blockSize: nat
    const pageSize: nat
    const pageAligned: bool
    var freestart: nat
    var freestartWhenEmpty: nat
    var lastAlloc: nat
    var remaining: nat
    var bytesAllocated: nat

    ghost var cur: nat             // index of the block the bump pointer is in
    ghost var live: set<Region>    // what clients hold

    function Cfg(): Config {
      Config(blockSize, pageSize, pageAligned)
    }

    ghost function State(): Arena
      reads this`freestart, this`freestartWhenEmpty, this`lastAlloc, this`remaining, this`bytesAllocated, this`cur
      reads table`blocks
    {
      Arena(Cfg(), table.blocks, cur, freestart, remaining, lastAlloc, freestartWhenEmpty, bytesAllocated)
    }

    ghost function View(): World
      reads this, table
    {
      World(State(), live)
    }

    /** The blocks are in order; nothing is said about the bump pointer. */
    ghost predicate Wired()
      reads table, table.firstBlocks, table.sys
    {
      ValidConfig(Cfg()) && table.Valid()
    }

    ghost predicate Valid()
      reads this, table, table.firstBlocks, table.sys
    {
      Wired() && Inv(View())
    }

    /**
     A new arena. usable is what nallocx answers for the requested block size. The
     requirements are the CHECKs of the source; an external first block (first not
     null) lies in memory that its owner keeps in use.
     */
    constructor (sys: System, first: nat, requested: nat, usable: nat, alignToPage: bool, pageSize: nat,
                 ghost owner: Grant)
      requires sys.Valid()
      requires ValidConfig(Config(usable, pageSize, alignToPage))
      requires first != 0 ==>
                 && (alignToPage ==> first % pageSize == 0)
                 && owner in sys.inUse && owner.mem <= first && first + requested <= owner.mem + owner.size
                 && Construct(Config(usable, pageSize, alignToPage), Block(first, requested, 0)).Some?
      requires first == 0 && alignToPage ==> usable % pageSize == 0
      modifies sys`inUse, sys`top
      ensures Valid() && live == {}
      ensures fresh(table) && fresh(table.firstBlocks) && table.sys == sys
      ensures Cfg() == Config(usable, pageSize, alignToPage)
      ensures table.firstBlockExternallyOwned == (first != 0)
      ensures Construct(Cfg(), table.blocks[0]) == Some(State())
      ensures table.blocks[0].size == if first != 0 then requested else usable
      ensures first != 0 ==> table.blocks[0].mem == first
      ensures table.Others() == old(sys.inUse)
    {
      var block := Block(first, requested, 0);
      if first == 0 {
        block := ObtainFirst(sys, usable, alignToPage, pageSize);
      }
      var blocks := new BlockTable(sys, block, first != 0, owner);
      table := blocks;
      this.blockSize, this.pageSize, this.pageAligned := usable, pageSize, alignToPage;
      freestart, freestartWhenEmpty, lastAlloc, remaining, bytesAllocated := 0, 0, 0, 0, 0;
      cur, live := 0, {};
      new;
      assert [block][1..] == [];
      assert table.Others() == old(sys.inUse);
      ConstructWorks(Cfg(), block);
      var ok := ResetBase();
    }

    /** Says whether the arena is empty; if it is, no client holds anything. */
    method IsEmpty() returns (empty: bool)
      requires Valid()
      ensures empty == ArenaSpec.IsEmpty(State())
      ensures empty ==> live == {}
    {
      var n := table.BlockCount();
      empty := freestart == freestartWhenEmpty && n == 1;
      if empty { EmptyMeansNothingLive(View()); }
    }

    method SatisfyAlignment(alignment: nat) returns (ok: bool)
      requires alignment > 0
      modifies this`freestart, this`remaining
      ensures ArenaSpec.SatisfyAlignment(old(State()), alignment) == if ok then Some(State()) else None
      ensures !ok ==> State() == old(State())
    {
      var overage := BitAnd(freestart, alignment - 1);
      if overage > 0 {
        var waste := alignment - overage;
        if waste >= remaining {
          return false;
        }
        freestart := freestart + waste;
        remaining := remaining - waste;
      }
      return true;
    }

    /** The alignment and size a new block gets; ok is false when the 1 MB CHECK fails. */
    method Adjust(size: nat, alignment: nat) returns (ok: bool, adjusted: nat, adjustedSize: nat)
      requires ValidConfig(Cfg()) && size > 0 && alignment > 0
      ensures ok == (AdjustedAlignment(Cfg(), alignment) <= MAX_ALIGNMENT)
      ensures adjusted == AdjustedAlignment(Cfg(), alignment) > 0
      ensures ok ==> adjustedSize == AdjustedSize(Cfg(), size, adjusted) > 0
    {
      adjusted, adjustedSize := 1, size;
      if pageAligned {
        adjusted := LeastCommonMultiple(pageSize, alignment);
      } else if alignment > 1 {
        adjusted := LeastCommonMultiple(alignment, DEFAULT_ALIGNMENT);
      }
      AdjustedAlignmentPositive(Cfg(), alignment);
      if adjusted > MAX_ALIGNMENT {
        return false, adjusted, adjustedSize;
      }
      if adjusted > NEW_ALIGNMENT {
        if adjustedSize > adjusted {
          var excess := adjustedSize % adjusted;
          adjustedSize := adjustedSize + (if excess > 0 then adjusted - excess else 0);
        }
        if pageAligned {
          var numPages := (adjustedSize - 1) / pageSize + 1;
          RoundUp(adjustedSize, pageSize);
          adjustedSize := numPages * pageSize;
        }
      }
      ok := true;
    }

    /** Adds a block; ok is false when the 1 MB CHECK stops the process. */
    method AllocNewBlock(size: nat, alignment: nat) returns (ok: bool, block: Block)
      requires Wired() && size > 0 && alignment > 0
      modifies this`bytesAllocated, table, table.firstBlocks, table.sys`inUse, table.sys`top
      ensures Wired() && table.Others() == old(table.Others())
      ensures ok == (AdjustedAlignment(Cfg(), alignment) <= MAX_ALIGNMENT)
      ensures ok ==>
                && block == NewBlock(Cfg(), size, alignment, block.mem)
                && IsFresh(old(State()), block)
                && State() == AddBlock(old(State()), block)
    {
      var adjusted, adjustedSize;
      ok, adjusted, adjustedSize := Adjust(size, alignment);
      if !ok {
        return false, Block(0, 0, 0);
      }
      block := table.Add(adjustedSize, adjusted);
      bytesAllocated := bytesAllocated + adjustedSize;
    }

    /** Opens a fresh block of the usual size; false when a CHECK stops the process. */
    method MakeNewBlock(alignment: nat) returns (ok: bool, ghost mem: nat)
      requires Wired() && alignment > 0
      modifies this, table, table.firstBlocks, table.sys`inUse, table.sys`top
      ensures Wired() && table.Others() == old(table.Others()) && live == old(live)
      ensures ArenaSpec.MakeNewBlock(old(State()), alignment, mem) == if ok then Some(State()) else None
      ensures AdjustedAlignment(Cfg(), alignment) <= MAX_ALIGNMENT ==>
                IsFresh(old(State()), NewBlock(Cfg(), blockSize, alignment, mem))
    {
      ghost var slot := |table.blocks|;
      var made, block := AllocNewBlock(blockSize, alignment);
      mem := block.mem;
      if !made {
        return false, mem;
      }
      ok := OpenBlock(block, alignment, slot);
    }

    /** Moves the bump pointer to a block. */
    method OpenBlock(block: Block, alignment: nat, ghost slot: nat) returns (ok: bool)
      requires alignment > 0
      modifies this`freestart, this`remaining, this`cur
      ensures ArenaSpec.SatisfyAlignment(
                old(State()).(cur := slot, freestart := block.mem, remaining := block.size), alignment)
              == if ok then Some(State()) else None
    {
      freestart, remaining, cur := block.mem, block.size, slot;
      ok := SatisfyAlignment(alignment);
    }

    /** Finds room for a small object, in the current block or in a new one. */
    method FindPlace(size: nat, alignment: nat) returns (ok: bool, ghost mem: nat)
      requires Wired() && 0 < size <= blockSize / 4 && alignment > 0 && IsPositivePowerOfTwo(alignment)
      requires !(size <= remaining && alignment == 1)
      modifies this, table, table.firstBlocks, table.sys`inUse, table.sys`top
      ensures Wired() && table.Others() == old(table.Others()) && live == old(live)
      ensures Place(old(State()), size, alignment, mem) == if ok then Some(State()) else None
      ensures SystemPromise(old(State()), size, alignment, mem)
    {
      mem := 0;
      ok := SatisfyAlignment(alignment);
      if !ok || size > remaining {
        ok, mem := MakeNewBlock(alignment);
      }
    }

    /** A block of its own for a big object; the bump pointer and last_alloc_ stay as they are. */
    method TakeBlock(size: nat, alignment: nat) returns (ok: bool, ptr: nat)
      requires Wired() && size > blockSize / 4 && IsPositivePowerOfTwo(alignment)
      requires !(size <= remaining && alignment == 1)
      modifies this`bytesAllocated, table, table.firstBlocks, table.sys`inUse, table.sys`top
      ensures Wired() && table.Others() == old(table.Others())
      ensures ArenaSpec.GetMemoryFallback(old(State()), size, alignment, ptr)
              == if ok then Done(State(), ptr) else Fatal
      ensures SystemPromise(old(State()), size, alignment, ptr)
    {
      var made, block := AllocNewBlock(size, alignment);
      return made, block.mem;
    }

    method GetMemoryFallback(size: nat, alignment: nat) returns (ok: bool, ptr: nat, ghost mem: nat)
      requires Wired() && !(0 < size <= remaining && alignment == 1)
      modifies this, table, table.firstBlocks, table.sys`inUse, table.sys`top
      ensures Wired() && table.Others() == old(table.Others()) && live == old(live)
      ensures ArenaSpec.GetMemoryFallback(old(State()), size, alignment, mem)
              == if ok then Done(State(), ptr) else Fatal
      ensures SystemPromise(old(State()), size, alignment, mem)
    {
      mem := 0;
      if size == 0 {
        return true, 0, mem;
      }
      if !(alignment > 0 && BitAnd(alignment, alignment - 1) == 0) {
        return false, 0, mem;
      }
      if blockSize == 0 || size > blockSize / 4 {
        ok, ptr := TakeBlock(size, alignment);
        return ok, ptr, ptr;
      }
      ok, mem := FindPlace(size, alignment);
      if !ok || size > remaining {
        return false, 0, mem;
      }
      ptr := Take(size);
      return true, ptr, mem;
    }

    /** Takes bytes off the bump pointer. */
    method Take(size: nat) returns (ptr: nat)
      requires size <= remaining
      modifies this`lastAlloc, this`freestart, this`remaining
      ensures State() == Bump(old(State()), size) && ptr == old(freestart)
    {
      remaining := remaining - size;
      lastAlloc := freestart;
      freestart := freestart + size;
      return lastAlloc;
    }

    method GetMemory(size: nat, alignment: nat) returns (ok: bool, ptr: nat, ghost mem: nat)
      requires Wired()
      modifies this, table, table.firstBlocks, table.sys`inUse, table.sys`top
      ensures Wired() && table.Others() == old(table.Others()) && live == old(live)
      ensures ArenaSpec.GetMemory(old(State()), size, alignment, mem) == if ok then Done(State(), ptr) else Fatal
      ensures SystemPromise(old(State()), size, alignment, mem)
    {
      if size > 0 && size <= remaining && alignment == 1 {
        ptr := Take(size);
        return true, ptr, 0;
      }
      ok, ptr, mem := GetMemoryFallback(size, alignment);
    }

    method ReturnMemory(memory: nat, size: nat)
      requires lastAlloc <= freestart
      modifies this`remaining, this`freestart
      ensures State() == ArenaSpec.ReturnMemory(old(State()), memory, size)
    {
      if memory == lastAlloc && size == freestart - lastAlloc {
        remaining := remaining + size;
        freestart := lastAlloc;
      }
    }

    method AdjustLastAlloc(memory: nat, newsize: nat) returns (ok: bool)
      requires lastAlloc <= freestart
      modifies this`remaining, this`freestart
      ensures ArenaSpec.AdjustLastAlloc(old(State()), memory, newsize) == if ok then Some(State()) else None
      ensures !ok ==> State() == old(State())
    {
      if memory == 0 || memory != lastAlloc {
        return false;
      }
      if newsize > freestart - lastAlloc + remaining {
        return false;
      }
      var oldFreestart := freestart;
      freestart := lastAlloc + newsize;
      remaining := remaining - (freestart - oldFreestart);
      return true;
    }

    /** Forgets all allocations; false when the first block cannot reach a boundary. */
    method ResetBase() returns (ok: bool)
      requires Wired()
      modifies this, table, table.firstBlocks, table.sys`inUse
      ensures Wired() && table.Others() == old(table.Others()) && live == {}
      ensures ArenaSpec.Reset(old(State())) == if ok then Some(State()) else None
    {
      table.FreeBlocks();
      freestart, remaining, lastAlloc, cur := table.firstBlocks[0].mem, table.firstBlocks[0].size, 0, 0;
      bytesAllocated := blockSize;
      live := {};
      ok := SatisfyAlignment(DEFAULT_ALIGNMENT);
      freestartWhenEmpty := freestart;
    }

    // -------------------------------------------------------------------------
    // What clients call
    // -------------------------------------------------------------------------

    /** Alloc (alignment 1) and AllocAligned. */
    method AllocAligned(size: nat, alignment: nat) returns (ok: bool, ptr: nat, ghost mem: nat)
      requires Valid()
      modifies this, table, table.firstBlocks, table.sys`inUse, table.sys`top
      ensures Wired() && table.Others() == old(table.Others())
      ensures Allowed(old(View()), OpAlloc(size, alignment, mem))
      ensures Apply(old(View()), OpAlloc(size, alignment, mem)) == if ok then Some(View()) else None
      ensures !ok <==> GetMemoryAborts(old(State()), size, alignment)
      ensures ok ==> Valid()
      ensures ok && size > 0 ==>
                && ptr > 0 && alignment > 0 && ptr % alignment == 0 && Region(ptr, size) in live
                && forall r :: r in old(live) ==> RegionsApart(r, Region(ptr, size))
    {
      ok, ptr, mem := GetMemory(size, alignment);
      AllocApplies(old(View()), size, alignment, mem);
      Hand(NULL_REGION, ptr, size);
    }

    method Free(r: Region)
      requires Valid() && (r in live || r == NULL_REGION)
      modifies this
      ensures Valid() && Apply(old(View()), OpFree(r)) == Some(View())
    {
      FreeApplies(View(), r);
      ReturnMemory(r.addr, r.size);
      Hand(r, 0, 0);
    }

    method Shrink(r: Region, newsize: nat)
      requires Valid() && r in live && newsize <= r.size
      modifies this
      ensures Valid() && Apply(old(View()), OpShrink(r, newsize)) == Some(View())
    {
      ShrinkApplies(View(), r, newsize);
      var adjusted := AdjustLastAlloc(r.addr, newsize);
      Hand(r, r.addr, newsize);
    }

    /** The moving half of Realloc: take new memory and copy the old bytes into it. */
    method Move(r: Region, newsize: nat, memory: Memory) returns (ok: bool, ptr: nat, ghost mem: nat)
      requires Wired() && lastAlloc <= freestart && newsize > r.size
      modifies this, table, table.firstBlocks, table.sys`inUse, table.sys`top, memory
      ensures Wired() && table.Others() == old(table.Others()) && live == old(live)
      ensures ArenaSpec.GetMemory(old(State()), newsize, 1, mem) == if ok then Done(State(), ptr) else Fatal
      ensures SystemPromise(old(State()), newsize, 1, mem)
      ensures memory.ram == if ok then Copied(old(memory.ram), ptr, r.addr, r.size) else old(memory.ram)
    {
      ok, ptr, mem := GetMemory(newsize, 1);
      if ok {
        memory.Memcpy(ptr, r.addr, r.size);
      }
    }

    /** Realloc up to the bookkeeping of what clients hold. */
    method Resize(r: Region, newsize: nat, memory: Memory) returns (ok: bool, ptr: nat, ghost mem: nat)
      requires Wired() && lastAlloc <= freestart
      modifies this, table, table.firstBlocks, table.sys`inUse, table.sys`top, memory
      ensures Wired() && table.Others() == old(table.Others()) && live == old(live)
      ensures ReallocMoves(old(State()), r, newsize) ==> SystemPromise(old(State()), newsize, 1, mem)
      ensures ArenaSpec.Realloc(old(State()), r, newsize, mem) == if ok then Done(State(), ptr) else Fatal
      ensures ok ==> memory.ram == ReallocRam(old(State()), r, newsize, mem, old(memory.ram))
    {
      var adjusted := AdjustLastAlloc(r.addr, newsize);
      if !adjusted && newsize > r.size {
        ok, ptr, mem := Move(r, newsize, memory);
      } else {
        ok, ptr, mem := true, r.addr, 0;
      }
    }

    /**
     Moves or resizes a region. By ReallocKeepsBytes the resulting contents keep the bytes
     the two sizes have in common and change no byte of any other client's region.
     */
    method Realloc(r: Region, newsize: nat, memory: Memory) returns (ok: bool, ptr: nat, ghost mem: nat)
      requires Valid() && (r in live || r == NULL_REGION)
      modifies this, table, table.firstBlocks, table.sys`inUse, table.sys`top, memory
      ensures Wired() && table.Others() == old(table.Others())
      ensures ReallocMoves(old(State()), r, newsize) ==> SystemPromise(old(State()), newsize, 1, mem)
      ensures ArenaSpec.Realloc(old(State()), r, newsize, mem) == if ok then Done(State(), ptr) else Fatal
      ensures ok ==> Valid() && live == Replace(old(live), r, ptr, newsize)
      ensures ok ==> memory.ram == ReallocRam(old(State()), r, newsize, mem, old(memory.ram))
    {
      ghost var before := View();
      ok, ptr, mem := Resize(r, newsize, memory);
      if ok {
        HandOver(before, r, newsize, mem, ptr);
      }
    }

    /** After Realloc the client holds the new region, and all is in order. */
    ghost method HandOver(before: World, r: Region, newsize: nat, mem: nat, ptr: nat)
      requires Inv(before) && live == before.live && (r in live || r == NULL_REGION)
      requires ReallocMoves(before.a, r, newsize) ==> SystemPromise(before.a, newsize, 1, mem)
      requires ArenaSpec.Realloc(before.a, r, newsize, mem) == Done(State(), ptr)
      modifies this`live
      ensures live == Replace(before.live, r, ptr, newsize) && State() == old(State()) && Inv(View())
    {
      ReallocLeaves(before, r, newsize, mem, State(), ptr);
      Hand(r, ptr, newsize);
    }

    /** The client now holds another region in place of r, or none. */
    ghost method Hand(r: Region, ptr: nat, size: nat)
      modifies this`live
      ensures live == Replace(old(live), r, ptr, size) && State() == old(State())
      ensures View() == World(old(State()), Replace(old(live), r, ptr, size))
      ensures size == 0 ==> View() == World(old(State()), old(live) - {r})
    {
      live := Replace(live, r, ptr, size);
    }

    method Reset()
      requires Valid()
      modifies this, table, table.firstBlocks, table.sys`inUse
      ensures Valid() && table.Others() == old(table.Others())
      ensures Apply(old(View()), OpReset) == Some(View())
    {
      ResetApplies(View());
      var ok := ResetBase();
    }

    /** The destructor: everything the arena obtained goes back, and nothing else. */
    method Destroy()
      requires Valid()
      modifies this, table, table.firstBlocks, table.sys`inUse
      ensures table.sys.Valid() && table.sys.inUse == old(table.Others())
    {
      table.Release();
    }
  }
}
