/**
 The arena as a value: what every operation does to the bump pointer, the blocks and
 the ledger, and what holds over every sequence of client operations.

 Addresses are natural numbers and 0 is the null pointer. An operation that may need
 memory from the system takes the address the system would answer with. A failed CHECK
 ends the process; it is the answer None or Fatal.
 */
module ArenaSpec {
  import opened Options
  import opened ArenaMath

  const DEFAULT_ALIGNMENT: nat := 8
  const NEW_ALIGNMENT: nat := 16          // what plain operator new guarantees
  const MAX_ALIGNMENT: nat := 0x10_0000   // 1 MB

  datatype Config = Config(blockSize: nat, pageSize: nat, pageAligned: bool)

  datatype Block = Block(mem: nat, size: nat, alignment: nat)

  /**
   blocks[0] is the first block; blocks[cur] is the one the bump pointer is in. The
   other fields are those of the class.
   */
  datatype Arena = Arena(cfg: Config, blocks: seq<Block>, cur: nat, freestart: nat,
                         remaining: nat, lastAlloc: nat, emptyStart: nat, bytes: nat)

  datatype Outcome = Fatal | Done(a: Arena, ptr: nat)

  predicate ValidConfig(c: Config) {
    && c.blockSize > DEFAULT_ALIGNMENT
    && (c.pageAligned ==> IsPow2(c.pageSize) && c.pageSize > NEW_ALIGNMENT)
  }

  // ---------------------------------------------------------------------------
  // The operations
  // ---------------------------------------------------------------------------

  function AdjustedAlignment(c: Config, alignment: nat): nat
    requires ValidConfig(c) && alignment > 0
  {
    if c.pageAligned then Lcm(c.pageSize, alignment)
    else if alignment > 1 then Lcm(alignment, DEFAULT_ALIGNMENT)
    else 1
  }

  function AdjustedSize(c: Config, size: nat, adjusted: nat): nat
    requires ValidConfig(c) && size > 0 && adjusted > 0
  {
    if adjusted > NEW_ALIGNMENT then
      var excess := size % adjusted;
      var rounded := if size > adjusted && excess > 0 then size + (adjusted - excess) else size;
      if c.pageAligned then ((rounded - 1) / c.pageSize + 1) * c.pageSize else rounded
    else
      size
  }

  /** The block AllocNewBlock records for a request, given the address obtained for it. */
  function NewBlock(c: Config, size: nat, alignment: nat, mem: nat): Block
    requires ValidConfig(c) && size > 0 && alignment > 0
  {
    AdjustedAlignmentPositive(c, alignment);
    var adjusted := AdjustedAlignment(c, alignment);
    Block(mem, AdjustedSize(c, size, adjusted), adjusted)
  }

  function AddBlock(a: Arena, b: Block): Arena {
    a.(blocks := a.blocks + [b], bytes := a.bytes + b.size)
  }

  /** SatisfyAlignment: None when the current block has no room to reach the boundary. */
  function SatisfyAlignment(a: Arena, alignment: nat): Option<Arena>
    requires alignment > 0
  {
    var overage := BitAnd(a.freestart, alignment - 1);
    if overage > 0 then
      var waste := alignment - overage;
      if waste >= a.remaining then None
      else Some(a.(freestart := a.freestart + waste, remaining := a.remaining - waste))
    else Some(a)
  }

  function Bump(a: Arena, size: nat): Arena
    requires size <= a.remaining
  {
    a.(lastAlloc := a.freestart, freestart := a.freestart + size, remaining := a.remaining - size)
  }

  predicate IsPositivePowerOfTwo(alignment: nat) {
    alignment > 0 && BitAnd(alignment, alignment - 1) == 0
  }

  /** MakeNewBlock: the bump pointer moves to a fresh block of the usual size. */
  function MakeNewBlock(a: Arena, alignment: nat, mem: nat): Option<Arena>
    requires ValidConfig(a.cfg) && alignment > 0
  {
    if AdjustedAlignment(a.cfg, alignment) > MAX_ALIGNMENT then None
    else
      var b := NewBlock(a.cfg, a.cfg.blockSize, alignment, mem);
      SatisfyAlignment(AddBlock(a, b).(cur := |a.blocks|, freestart := b.mem, remaining := b.size),
                       alignment)
  }

  /** Where a small object goes: the aligned rest of the current block, or a new block. */
  function Place(a: Arena, size: nat, alignment: nat, mem: nat): Option<Arena>
    requires ValidConfig(a.cfg) && alignment > 0
  {
    var here := SatisfyAlignment(a, alignment);
    if here.Some? && size <= here.value.remaining then here
    else MakeNewBlock(if here.Some? then here.value else a, alignment, mem)
  }

  function GetMemoryFallback(a: Arena, size: nat, alignment: nat, mem: nat): Outcome
    requires ValidConfig(a.cfg)
  {
    if size == 0 then Done(a, 0)
    else if !IsPositivePowerOfTwo(alignment) then Fatal
    else if size > a.cfg.blockSize / 4 then
      if AdjustedAlignment(a.cfg, alignment) > MAX_ALIGNMENT then Fatal
      else Done(AddBlock(a, NewBlock(a.cfg, size, alignment, mem)), mem)
    else
      var there := Place(a, size, alignment, mem);
      if there.None? || size > there.value.remaining then Fatal
      else Done(Bump(there.value, size), there.value.freestart)
  }

  function GetMemory(a: Arena, size: nat, alignment: nat, mem: nat): Outcome
    requires ValidConfig(a.cfg)
  {
    if 0 < size <= a.remaining && alignment == 1 then Done(Bump(a, size), a.freestart)
    else GetMemoryFallback(a, size, alignment, mem)
  }

  function ReturnMemory(a: Arena, memory: nat, size: nat): Arena {
    if memory == a.lastAlloc && size == a.freestart - a.lastAlloc
    then a.(remaining := a.remaining + size, freestart := a.lastAlloc)
    else a
  }

  /** AdjustLastAlloc: None when it refuses. */
  function AdjustLastAlloc(a: Arena, memory: nat, newsize: nat): Option<Arena>
    requires a.lastAlloc <= a.freestart
  {
    if memory == 0 || memory != a.lastAlloc then None
    else
      var used := a.freestart - a.lastAlloc;
      if newsize > used + a.remaining then None
      else Some(a.(freestart := a.lastAlloc + newsize, remaining := a.remaining - (newsize - used)))
  }

  function Reset(a: Arena): Option<Arena>
    requires |a.blocks| > 0
  {
    var first := a.blocks[0];
    var r := SatisfyAlignment(a.(blocks := [first], cur := 0, freestart := first.mem, remaining := first.size,
                                 lastAlloc := 0, bytes := a.cfg.blockSize),
                              DEFAULT_ALIGNMENT);
    if r.None? then None else Some(r.value.(emptyStart := r.value.freestart))
  }

  function Construct(c: Config, first: Block): Option<Arena> {
    Reset(Arena(c, [first], 0, 0, 0, 0, 0, 0))
  }

  function SumSizes(blocks: seq<Block>): nat {
    if blocks == [] then 0 else SumSizes(blocks[..|blocks| - 1]) + blocks[|blocks| - 1].size
  }

  // ---------------------------------------------------------------------------
  // Clients
  // ---------------------------------------------------------------------------

  datatype Region = Region(addr: nat, size: nat)

  const NULL_REGION := Region(0, 0)

  /** An arena together with the regions its clients may still use. */
  datatype World = World(a: Arena, live: set<Region>)

  datatype Op =
    | OpAlloc(size: nat, alignment: nat, mem: nat)
    | OpFree(r: Region)
    | OpShrink(r: Region, newsize: nat)
    | OpRealloc(r: Region, newsize: nat, mem: nat)
    | OpReset

  /** A region of size 0 is no region: shrinking to 0 gives the region up. */
  function Replace(live: set<Region>, r: Region, addr: nat, size: nat): set<Region> {
    live - {r} + (if size == 0 then {} else {Region(addr, size)})
  }

  /** Realloc takes new memory exactly when it cannot adjust in place and the region grows. */
  predicate ReallocMoves(a: Arena, r: Region, newsize: nat)
    requires a.lastAlloc <= a.freestart
  {
    AdjustLastAlloc(a, r.addr, newsize).None? && newsize > r.size
  }

  function Realloc(a: Arena, r: Region, newsize: nat, mem: nat): Outcome
    requires ValidConfig(a.cfg) && a.lastAlloc <= a.freestart
  {
    var adjusted := AdjustLastAlloc(a, r.addr, newsize);
    if adjusted.Some? then Done(adjusted.value, r.addr)
    else if newsize > r.size then GetMemory(a, newsize, 1, mem)
    else Done(a, r.addr)
  }

  /** What the operations need of an arena to be defined at all. */
  predicate Usable(a: Arena) {
    ValidConfig(a.cfg) && |a.blocks| > 0 && a.lastAlloc <= a.freestart
  }

  /** One client operation; None when a CHECK stops the process. */
  function Apply(w: World, op: Op): Option<World>
    requires Usable(w.a)
  {
    match op
    case OpAlloc(size, alignment, mem) =>
      (match GetMemory(w.a, size, alignment, mem)
       case Fatal => None
       case Done(a, ptr) => Some(World(a, Replace(w.live, NULL_REGION, ptr, size))))
    case OpFree(r) => Some(World(ReturnMemory(w.a, r.addr, r.size), w.live - {r}))
    case OpShrink(r, newsize) =>
      var a := AdjustLastAlloc(w.a, r.addr, newsize);
      Some(World(if a.Some? then a.value else w.a, Replace(w.live, r, r.addr, newsize)))
    case OpRealloc(r, newsize, mem) =>
      (match Realloc(w.a, r, newsize, mem)
       case Fatal => None
       case Done(a, ptr) => Some(World(a, Replace(w.live, r, ptr, newsize))))
    case OpReset =>
      var a := Reset(w.a);
      if a.None? then None else Some(World(a.value, {}))
  }

  /** The size a call hands to AllocNewBlock, if it gets that far. */
  function BlockRequest(a: Arena, size: nat, alignment: nat): Option<nat> {
    if size == 0 || (size <= a.remaining && alignment == 1) || !IsPositivePowerOfTwo(alignment) then None
    else if size > a.cfg.blockSize / 4 then Some(size)
    else
      var here := SatisfyAlignment(a, alignment);
      if here.Some? && size <= here.value.remaining then None else Some(a.cfg.blockSize)
  }

  /** Memory from the system is not null, aligned as asked, and new to this arena. */
  ghost predicate IsFresh(a: Arena, b: Block) {
    && b.mem > 0
    && b.mem % (if b.alignment > NEW_ALIGNMENT then b.alignment else NEW_ALIGNMENT) == 0
    && forall i :: 0 <= i < |a.blocks| ==> BlocksApart(a.blocks[i], b)
  }

  ghost predicate SystemPromise(a: Arena, size: nat, alignment: nat, mem: nat)
    requires ValidConfig(a.cfg)
  {
    var request := BlockRequest(a, size, alignment);
    request.Some? && alignment > 0 && AdjustedAlignment(a.cfg, alignment) <= MAX_ALIGNMENT ==>
      request.value > 0 && IsFresh(a, NewBlock(a.cfg, request.value, alignment, mem))
  }

  /** What clients owe: their own live regions with the true size, and shrinking only down. */
  ghost predicate Allowed(w: World, op: Op)
    requires Usable(w.a)
  {
    match op
    case OpAlloc(size, alignment, mem) => SystemPromise(w.a, size, alignment, mem)
    case OpFree(r) => r in w.live || r == NULL_REGION
    case OpShrink(r, newsize) => r in w.live && newsize <= r.size
    case OpRealloc(r, newsize, mem) =>
      (r in w.live || r == NULL_REGION) && (ReallocMoves(w.a, r, newsize) ==> SystemPromise(w.a, newsize, 1, mem))
    case OpReset => true
  }

  // ---------------------------------------------------------------------------
  // The invariant
  // ---------------------------------------------------------------------------

  predicate BlocksApart(b: Block, c: Block) {
    b.mem + b.size <= c.mem || c.mem + c.size <= b.mem
  }

  predicate RegionsApart(r: Region, q: Region) {
    r.addr + r.size <= q.addr || q.addr + q.size <= r.addr
  }

  predicate Within(r: Region, b: Block) {
    b.mem <= r.addr && r.addr + r.size <= b.mem + b.size
  }

  predicate OnPages(c: Config, b: Block) {
    c.pageAligned ==> c.pageSize > 0 && b.mem % c.pageSize == 0 && b.size % c.pageSize == 0
  }

  /** The bump pointer, the blocks and the ledger agree with each other. */
  ghost predicate Frame(a: Arena) {
    && ValidConfig(a.cfg)
    && a.cur < |a.blocks|
    && (forall i :: 0 <= i < |a.blocks| ==> a.blocks[i].mem > 0)
    && (forall i, j :: 0 <= i < j < |a.blocks| ==> BlocksApart(a.blocks[i], a.blocks[j]))
    && a.blocks[a.cur].mem <= a.freestart
    && a.freestart + a.remaining == a.blocks[a.cur].mem + a.blocks[a.cur].size
    && a.bytes == a.cfg.blockSize + SumSizes(a.blocks[1..])
    && (forall i :: 1 <= i < |a.blocks| ==> OnPages(a.cfg, a.blocks[i]))
    && (a.blocks[0].mem == a.emptyStart || a.blocks[0].mem < a.emptyStart < a.blocks[0].mem + a.blocks[0].size)
    && a.emptyStart % DEFAULT_ALIGNMENT == 0
    && a.emptyStart < a.blocks[0].mem + DEFAULT_ALIGNMENT
    && (a.cur == 0 ==> a.emptyStart <= a.freestart)
  }

  /** The last allocation is null or inside the current block, before the bump pointer. */
  ghost predicate Shape(a: Arena) {
    && Frame(a)
    && a.lastAlloc <= a.freestart
    && (a.lastAlloc != 0 ==>
          && a.blocks[a.cur].mem <= a.lastAlloc < a.freestart + a.remaining
          && (a.cur == 0 ==> a.emptyStart <= a.lastAlloc))
  }

  ghost predicate HasHome(a: Arena, r: Region) {
    exists i :: 0 <= i < |a.blocks| && Within(r, a.blocks[i])
  }

  /** Live regions are disjoint, inside blocks, and below the bump pointer. */
  ghost predicate LiveBelow(a: Arena, live: set<Region>)
    requires Frame(a)
  {
    && (forall r :: r in live ==> r.size > 0 && HasHome(a, r))
    && (forall r, q :: r in live && q in live && r != q ==> RegionsApart(r, q))
    && (forall r :: r in live && Within(r, a.blocks[a.cur]) ==> r.addr + r.size <= a.freestart)
    && (forall r :: r in live && Within(r, a.blocks[0]) ==> a.emptyStart <= r.addr)
  }

  /** In the current block everything live lies below the last allocation or is it. */
  ghost predicate Settled(a: Arena, live: set<Region>)
    requires Frame(a)
  {
    forall r :: r in live && Within(r, a.blocks[a.cur]) ==>
      && a.lastAlloc != 0
      && (r.addr + r.size <= a.lastAlloc || (r.addr == a.lastAlloc && r.addr + r.size == a.freestart))
  }

  ghost predicate Inv(w: World) {
    Shape(w.a) && LiveBelow(w.a, w.live) && Settled(w.a, w.live)
  }

  // ---------------------------------------------------------------------------
  // Alignment and block sizes
  // ---------------------------------------------------------------------------

  lemma AdjustedAlignmentPositive(c: Config, alignment: nat)
    requires ValidConfig(c) && alignment > 0
    ensures AdjustedAlignment(c, alignment) > 0
  {
    if c.pageAligned {
      LcmIsLeast(c.pageSize, alignment);
    } else if alignment > 1 {
      LcmIsLeast(alignment, DEFAULT_ALIGNMENT);
    }
  }

  /** For a power of two the adjusted alignment is simply the larger of the two. */
  lemma AdjustedAlignmentOfPower(c: Config, alignment: nat)
    requires ValidConfig(c) && IsPow2(alignment)
    ensures AdjustedAlignment(c, alignment) ==
            if c.pageAligned then (if c.pageSize <= alignment then alignment else c.pageSize)
            else if alignment == 1 then 1
            else if alignment <= DEFAULT_ALIGNMENT then DEFAULT_ALIGNMENT
            else alignment
    ensures IsPow2(AdjustedAlignment(c, alignment))
  {
    if c.pageAligned {
      LcmOfPowers(c.pageSize, alignment);
    } else if alignment > 1 {
      assert IsPow2(4) && IsPow2(DEFAULT_ALIGNMENT);
      LcmOfPowers(alignment, DEFAULT_ALIGNMENT);
    }
  }

  lemma RoundUp(x: nat, n: nat)
    requires n > 0 && x > 0
    ensures ((x - 1) / n + 1) * n >= x
    ensures ((x - 1) / n + 1) * n % n == 0
  {
    var q := (x - 1) / n;
    assert x - 1 == n * q + (x - 1) % n;
    assert (q + 1) * n == n * q + n;
    assert (q + 1) * n == n * (q + 1) + 0;
    RemainderUnique((q + 1) * n, n, q + 1, 0);
  }

  /** A new block is at least as large as asked for, and a whole number of pages if need be. */
  lemma AdjustedSizeFits(c: Config, size: nat, alignment: nat)
    requires ValidConfig(c) && size > 0 && IsPow2(alignment)
    ensures AdjustedAlignment(c, alignment) > 0
    ensures AdjustedSize(c, size, AdjustedAlignment(c, alignment)) >= size
    ensures c.pageAligned ==> AdjustedSize(c, size, AdjustedAlignment(c, alignment)) % c.pageSize == 0
  {
    AdjustedAlignmentPositive(c, alignment);
    AdjustedAlignmentOfPower(c, alignment);
    if c.pageAligned {
      var adjusted := AdjustedAlignment(c, alignment);
      var excess := size % adjusted;
      var rounded := if size > adjusted && excess > 0 then size + (adjusted - excess) else size;
      RoundUp(rounded, c.pageSize);
    }
  }

  /** Fresh memory meets the alignment asked for, and page boundaries if need be. */
  lemma FreshIsAligned(a: Arena, size: nat, alignment: nat, mem: nat)
    requires ValidConfig(a.cfg) && size > 0 && IsPow2(alignment)
    requires IsFresh(a, NewBlock(a.cfg, size, alignment, mem))
    ensures mem % alignment == 0
    ensures OnPages(a.cfg, NewBlock(a.cfg, size, alignment, mem))
  {
    AdjustedAlignmentOfPower(a.cfg, alignment);
    AdjustedSizeFits(a.cfg, size, alignment);
    var adjusted := AdjustedAlignment(a.cfg, alignment);
    assert IsPow2(2) && IsPow2(4) && IsPow2(8) && IsPow2(NEW_ALIGNMENT);
    var granted := if adjusted > NEW_ALIGNMENT then adjusted else NEW_ALIGNMENT;
    AlignedToLarger(mem, alignment, granted);
    if a.cfg.pageAligned {
      AlignedToLarger(mem, a.cfg.pageSize, granted);
    }
  }

  lemma AlignedToLarger(mem: nat, small: nat, large: nat)
    requires IsPow2(small) && IsPow2(large) && small <= large && mem % large == 0
    ensures mem % small == 0
  {
    Pow2Divides(small, large);
    DividesMeansNoRemainder(large, mem);
    DividesTransitive(small, large, mem);
    DividesMeansNoRemainder(small, mem);
  }

  /** How far an address is below the next boundary. */
  function Gap(x: nat, alignment: nat): nat
    requires alignment > 0
  {
    if x % alignment == 0 then 0 else alignment - x % alignment
  }

  lemma GapReachesBoundary(x: nat, alignment: nat)
    requires alignment > 0
    ensures (x + Gap(x, alignment)) % alignment == 0
  {
    var q := x / alignment;
    assert x == alignment * q + x % alignment;
    if x % alignment > 0 {
      assert alignment * (q + 1) == alignment * q + alignment;
      RemainderUnique(x + Gap(x, alignment), alignment, q + 1, 0);
    }
  }

  /** SatisfyAlignment moves to the first boundary, and only within the block. */
  lemma SatisfyAlignmentFinds(a: Arena, alignment: nat)
    requires IsPow2(alignment)
    ensures var r := SatisfyAlignment(a, alignment);
            var gap := Gap(a.freestart, alignment);
            && (r.None? <==> gap > 0 && gap >= a.remaining)
            && (r.Some? ==> && (a.freestart + gap) % alignment == 0
                            && r.value == a.(freestart := a.freestart + gap, remaining := a.remaining - gap))
  {
    MaskIsRemainder(a.freestart, alignment);
    GapReachesBoundary(a.freestart, alignment);
  }

  lemma SumSizesAppend(blocks: seq<Block>, b: Block)
    ensures SumSizes(blocks + [b]) == SumSizes(blocks) + b.size
  {
    assert (blocks + [b])[..|blocks + [b]| - 1] == blocks;
  }

  // ---------------------------------------------------------------------------
  // The invariant, piece by piece
  // ---------------------------------------------------------------------------

  lemma AddBlockKeeps(a: Arena, live: set<Region>, b: Block)
    requires Frame(a) && LiveBelow(a, live)
    requires IsFresh(a, b) && b.size > 0 && OnPages(a.cfg, b)
    ensures Frame(AddBlock(a, b)) && LiveBelow(AddBlock(a, b), live)
    ensures forall r :: r in live ==> !Within(r, b)
  {
    var a' := AddBlock(a, b);
    assert a'.blocks[1..] == a.blocks[1..] + [b];
    SumSizesAppend(a.blocks[1..], b);
    forall r | r in live ensures HasHome(a', r) && !Within(r, b) {
      var i :| 0 <= i < |a.blocks| && Within(r, a.blocks[i]);
      assert Within(r, a'.blocks[i]);
      assert BlocksApart(a.blocks[i], b);
    }
  }

  /** What lies in the current block at or above the bump pointer meets nothing live. */
  lemma TailIsApart(a: Arena, live: set<Region>, q: Region, r: Region)
    requires Frame(a) && LiveBelow(a, live) && q in live
    requires Within(r, a.blocks[a.cur]) && a.freestart <= r.addr
    ensures RegionsApart(r, q)
  {
    var i :| 0 <= i < |a.blocks| && Within(q, a.blocks[i]);
    if i < a.cur {
      assert BlocksApart(a.blocks[i], a.blocks[a.cur]);
    } else if i > a.cur {
      assert BlocksApart(a.blocks[a.cur], a.blocks[i]);
    }
  }

  lemma SameBlocksSameHomes(a: Arena, a': Arena, live: set<Region>)
    requires a'.blocks == a.blocks && forall r :: r in live ==> HasHome(a, r)
    ensures forall r :: r in live ==> HasHome(a', r)
  {
  }

  /** Taking bytes off the bump pointer leaves a world in good order. */
  lemma BumpKeeps(a: Arena, live: set<Region>, size: nat)
    requires Frame(a) && LiveBelow(a, live) && 0 < size <= a.remaining
    ensures Inv(World(Bump(a, size), live + {Region(a.freestart, size)}))
    ensures Region(a.freestart, size) !in live
  {
    var a', r := Bump(a, size), Region(a.freestart, size);
    assert Shape(a');
    assert Within(r, a'.blocks[a'.cur]);
    forall q | q in live ensures RegionsApart(r, q) {
      TailIsApart(a, live, q, r);
    }
    SameBlocksSameHomes(a, a', live);
    if a.cur != 0 { assert BlocksApart(a.blocks[0], a.blocks[a.cur]); }
    BumpLive(a, live, size);
  }

  lemma BumpLive(a: Arena, live: set<Region>, size: nat)
    requires Frame(a) && LiveBelow(a, live) && 0 < size <= a.remaining
    requires Shape(Bump(a, size))
    requires forall q :: q in live ==> RegionsApart(Region(a.freestart, size), q)
    requires a.cur != 0 ==> BlocksApart(a.blocks[0], a.blocks[a.cur])
    ensures LiveBelow(Bump(a, size), live + {Region(a.freestart, size)})
    ensures Settled(Bump(a, size), live + {Region(a.freestart, size)})
  {
    var a', r := Bump(a, size), Region(a.freestart, size);
    var live' := live + {r};
    assert Within(r, a'.blocks[a'.cur]);
    SameBlocksSameHomes(a, a', live);
    JoinedStayApart(live, r);
  }

  lemma JoinedStayApart(live: set<Region>, r: Region)
    requires forall p, q :: p in live && q in live && p != q ==> RegionsApart(p, q)
    requires forall q :: q in live ==> RegionsApart(r, q)
    ensures forall p, q :: p in live + {r} && q in live + {r} && p != q ==> RegionsApart(p, q)
  {
  }

  lemma AlignKeeps(a: Arena, live: set<Region>, alignment: nat)
    requires Frame(a) && LiveBelow(a, live) && alignment > 0 && SatisfyAlignment(a, alignment).Some?
    ensures var a' := SatisfyAlignment(a, alignment).value; Frame(a') && LiveBelow(a', live)
  {
    var a' := SatisfyAlignment(a, alignment).value;
    forall r | r in live ensures HasHome(a', r) {
      var i :| 0 <= i < |a.blocks| && Within(r, a.blocks[i]);
      assert Within(r, a'.blocks[i]);
    }
  }

  /** MakeNewBlock's own CHECK cannot fail: a fresh block starts on the boundary. */
  lemma MakeNewBlockSucceeds(a: Arena, alignment: nat, mem: nat)
    requires ValidConfig(a.cfg) && IsPow2(alignment)
    requires AdjustedAlignment(a.cfg, alignment) <= MAX_ALIGNMENT
    requires IsFresh(a, NewBlock(a.cfg, a.cfg.blockSize, alignment, mem))
    ensures var b := NewBlock(a.cfg, a.cfg.blockSize, alignment, mem);
            && mem % alignment == 0 && b.size >= a.cfg.blockSize
            && MakeNewBlock(a, alignment, mem)
               == Some(AddBlock(a, b).(cur := |a.blocks|, freestart := mem, remaining := b.size))
  {
    var b := NewBlock(a.cfg, a.cfg.blockSize, alignment, mem);
    FreshIsAligned(a, a.cfg.blockSize, alignment, mem);
    AdjustedSizeFits(a.cfg, a.cfg.blockSize, alignment);
    SatisfyAlignmentFinds(AddBlock(a, b).(cur := |a.blocks|, freestart := b.mem, remaining := b.size), alignment);
  }

  lemma MakeNewBlockKeeps(a: Arena, live: set<Region>, alignment: nat, mem: nat)
    requires Frame(a) && LiveBelow(a, live) && IsPow2(alignment)
    requires AdjustedAlignment(a.cfg, alignment) <= MAX_ALIGNMENT
    requires IsFresh(a, NewBlock(a.cfg, a.cfg.blockSize, alignment, mem))
    ensures var r := MakeNewBlock(a, alignment, mem);
            r.Some? && Frame(r.value) && LiveBelow(r.value, live)
  {
    var b := NewBlock(a.cfg, a.cfg.blockSize, alignment, mem);
    MakeNewBlockSucceeds(a, alignment, mem);
    FreshIsAligned(a, a.cfg.blockSize, alignment, mem);
    AddBlockKeeps(a, live, b);
    SwitchToLastBlock(AddBlock(a, b), live);
  }

  lemma SwitchToLastBlock(a: Arena, live: set<Region>)
    requires Frame(a) && LiveBelow(a, live) && |a.blocks| >= 2
    requires forall r :: r in live ==> !Within(r, a.blocks[|a.blocks| - 1])
    ensures var b := a.blocks[|a.blocks| - 1];
            var a' := a.(cur := |a.blocks| - 1, freestart := b.mem, remaining := b.size);
            Frame(a') && LiveBelow(a', live)
  {
    var b := a.blocks[|a.blocks| - 1];
    SameBlocksSameHomes(a, a.(cur := |a.blocks| - 1, freestart := b.mem, remaining := b.size), live);
  }

  // ---------------------------------------------------------------------------
  // What each operation does
  // ---------------------------------------------------------------------------

  /**
   The exact condition under which a call to GetMemory stops the process: it reaches the
   slow path with an alignment that is no power of two, or it needs a block aligned
   beyond 1 MB. In particular no other CHECK on the way can fail.
   */
  ghost predicate GetMemoryAborts(a: Arena, size: nat, alignment: nat)
    requires ValidConfig(a.cfg)
  {
    && size > 0
    && !(size <= a.remaining && alignment == 1)
    && (!IsPow2(alignment)
        || (BlockRequest(a, size, alignment).Some? && AdjustedAlignment(a.cfg, alignment) > MAX_ALIGNMENT))
  }

  lemma PowerOfTwoCheck(alignment: nat)
    ensures IsPositivePowerOfTwo(alignment) <==> IsPow2(alignment)
  {
    if alignment > 0 { PowerOfTwoTest(alignment); }
  }

  /** What GetMemory promises about the region it hands out. */
  ghost predicate Granted(w: World, o: Outcome, size: nat, alignment: nat) {
    && o.Done?
    && (size == 0 ==> o.a == w.a && o.ptr == 0)
    && (size > 0 ==>
          && o.ptr > 0 && alignment > 0 && o.ptr % alignment == 0
          && Inv(World(o.a, w.live + {Region(o.ptr, size)}))
          && (forall r :: r in w.live ==> RegionsApart(r, Region(o.ptr, size))))
  }

  lemma BumpGrants(w: World, a: Arena, size: nat, alignment: nat)
    requires Frame(a) && LiveBelow(a, w.live) && 0 < size <= a.remaining
    requires alignment > 0 && a.freestart % alignment == 0
    ensures Granted(w, Done(Bump(a, size), a.freestart), size, alignment)
  {
    BumpKeeps(a, w.live, size);
    var live' := w.live + {Region(a.freestart, size)};
    assert LiveBelow(Bump(a, size), live');
    assert Region(a.freestart, size) in live';
  }

  lemma BigBlockGrants(w: World, size: nat, alignment: nat, mem: nat)
    requires Inv(w) && size > 0 && IsPow2(alignment)
    requires IsFresh(w.a, NewBlock(w.a.cfg, size, alignment, mem))
    ensures Granted(w, Done(AddBlock(w.a, NewBlock(w.a.cfg, size, alignment, mem)), mem), size, alignment)
  {
    var b := NewBlock(w.a.cfg, size, alignment, mem);
    var a', r := AddBlock(w.a, b), Region(mem, size);
    AdjustedSizeFits(w.a.cfg, size, alignment);
    FreshIsAligned(w.a, size, alignment, mem);
    AddBlockKeeps(w.a, w.live, b);
    forall q | q in w.live ensures RegionsApart(r, q) {
      var i :| 0 <= i < |w.a.blocks| && Within(q, w.a.blocks[i]);
      assert BlocksApart(w.a.blocks[i], b);
    }
    BigRegionLives(w.a, a', w.live, b, r);
  }

  lemma BigRegionLives(a: Arena, a': Arena, live: set<Region>, b: Block, r: Region)
    requires Shape(a) && Settled(a, live) && Frame(a') && LiveBelow(a', live) && a' == AddBlock(a, b)
    requires r.addr == b.mem && 0 < r.size <= b.size && forall q :: q in live ==> RegionsApart(r, q)
    ensures Inv(World(a', live + {r}))
  {
    var last := |a.blocks|;
    assert a'.blocks[last] == b && Within(r, a'.blocks[last]);
    assert BlocksApart(a'.blocks[a.cur], a'.blocks[last]) && BlocksApart(a'.blocks[0], a'.blocks[last]);
    assert a'.blocks[a.cur] == a.blocks[a.cur] && a'.blocks[0] == a.blocks[0];
    JoinedStayApart(live, r);
  }

  /** A new block has room for a small object, on its boundary. */
  lemma NewBlockFits(a: Arena, live: set<Region>, size: nat, alignment: nat, mem: nat)
    requires Frame(a) && LiveBelow(a, live) && IsPow2(alignment) && size <= a.cfg.blockSize
    requires AdjustedAlignment(a.cfg, alignment) <= MAX_ALIGNMENT
    requires IsFresh(a, NewBlock(a.cfg, a.cfg.blockSize, alignment, mem))
    ensures var r := MakeNewBlock(a, alignment, mem);
            && r.Some? && Frame(r.value) && LiveBelow(r.value, live)
            && r.value.freestart % alignment == 0 && size <= r.value.remaining
  {
    MakeNewBlockKeeps(a, live, alignment, mem);
    MakeNewBlockSucceeds(a, alignment, mem);
  }

  /** Where the search for room starts: at the first boundary in the block, if there is one. */
  lemma AlignedStart(a: Arena, live: set<Region>, alignment: nat) returns (from: Arena)
    requires Frame(a) && LiveBelow(a, live) && IsPow2(alignment)
    ensures var here := SatisfyAlignment(a, alignment);
            from == if here.Some? then here.value else a
    ensures Frame(from) && LiveBelow(from, live) && from.cfg == a.cfg && from.blocks == a.blocks
    ensures SatisfyAlignment(a, alignment).Some? ==> from.freestart % alignment == 0
  {
    var here := SatisfyAlignment(a, alignment);
    SatisfyAlignmentFinds(a, alignment);
    if here.Some? { AlignKeeps(a, live, alignment); }
    from := if here.Some? then here.value else a;
  }

  lemma PlaceFits(w: World, size: nat, alignment: nat, mem: nat)
    requires Inv(w) && 0 < size <= w.a.cfg.blockSize / 4 && IsPow2(alignment)
    requires !(size <= w.a.remaining && alignment == 1) && SystemPromise(w.a, size, alignment, mem)
    ensures var there := Place(w.a, size, alignment, mem);
            && (there.None? <==> BlockRequest(w.a, size, alignment).Some?
                                 && AdjustedAlignment(w.a.cfg, alignment) > MAX_ALIGNMENT)
            && (there.Some? ==> && Frame(there.value) && LiveBelow(there.value, w.live)
                                && there.value.freestart % alignment == 0 && size <= there.value.remaining)
  {
    PowerOfTwoCheck(alignment);
    var from := AlignedStart(w.a, w.live, alignment);
    if BlockRequest(w.a, size, alignment).Some? && AdjustedAlignment(w.a.cfg, alignment) <= MAX_ALIGNMENT {
      NewBlockFits(from, w.live, size, alignment, mem);
    }
  }

  lemma SmallAllocGrants(w: World, size: nat, alignment: nat, mem: nat)
    requires Inv(w) && 0 < size <= w.a.cfg.blockSize / 4 && IsPow2(alignment)
    requires !(size <= w.a.remaining && alignment == 1) && SystemPromise(w.a, size, alignment, mem)
    ensures var o := GetMemoryFallback(w.a, size, alignment, mem);
            && (o.Fatal? <==> BlockRequest(w.a, size, alignment).Some?
                              && AdjustedAlignment(w.a.cfg, alignment) > MAX_ALIGNMENT)
            && (o.Done? ==> Granted(w, o, size, alignment))
  {
    PowerOfTwoCheck(alignment);
    PlaceFits(w, size, alignment, mem);
    var there := Place(w.a, size, alignment, mem);
    if there.Some? { BumpGrants(w, there.value, size, alignment); }
  }

  /** Allocation aborts exactly as described, and otherwise grants a good region. */
  lemma GetMemoryGrants(w: World, size: nat, alignment: nat, mem: nat)
    requires Inv(w) && SystemPromise(w.a, size, alignment, mem)
    ensures var o := GetMemory(w.a, size, alignment, mem);
            && (o.Fatal? <==> GetMemoryAborts(w.a, size, alignment))
            && (o.Done? ==> Granted(w, o, size, alignment))
  {
    PowerOfTwoCheck(alignment);
    if 0 < size <= w.a.remaining && alignment == 1 {
      BumpGrants(w, w.a, size, alignment);
    } else if size > 0 && IsPow2(alignment) {
      if size <= w.a.cfg.blockSize / 4 {
        SmallAllocGrants(w, size, alignment, mem);
      } else if AdjustedAlignment(w.a.cfg, alignment) <= MAX_ALIGNMENT {
        BigBlockGrants(w, size, alignment, mem);
      }
    }
  }

  lemma SubsetKeeps(a: Arena, live: set<Region>, fewer: set<Region>)
    requires Inv(World(a, live)) && fewer <= live
    ensures Inv(World(a, fewer))
  {
  }

  /** A live region at the last-allocation mark is the piece just below the bump pointer. */
  lemma LastAllocEndsAtBump(w: World, r: Region)
    requires Inv(w) && r in w.live && r.addr == w.a.lastAlloc
    ensures r.addr + r.size == w.a.freestart && Within(r, w.a.blocks[w.a.cur])
  {
    var a := w.a;
    var i :| 0 <= i < |a.blocks| && Within(r, a.blocks[i]);
    assert i < a.cur ==> BlocksApart(a.blocks[i], a.blocks[a.cur]);
    assert a.cur < i ==> BlocksApart(a.blocks[a.cur], a.blocks[i]);
  }

  /** Everything live except the last allocation itself lies outside [last, end of block). */
  lemma OthersClearOfLast(w: World, r: Region, q: Region, top: nat)
    requires Inv(w) && r in w.live && r.addr == w.a.lastAlloc && q in w.live && q != r
    requires top <= w.a.freestart + w.a.remaining
    ensures RegionsApart(Region(r.addr, if top >= r.addr then top - r.addr else 0), q)
    ensures Within(q, w.a.blocks[w.a.cur]) ==> q.addr + q.size <= r.addr
  {
    LastAllocEndsAtBump(w, r);
    var a := w.a;
    var i :| 0 <= i < |a.blocks| && Within(q, a.blocks[i]);
    if i < a.cur {
      assert BlocksApart(a.blocks[i], a.blocks[a.cur]);
    } else if i > a.cur {
      assert BlocksApart(a.blocks[a.cur], a.blocks[i]);
    }
  }

  lemma ReplacedStayApart(live: set<Region>, r: Region, addr: nat, size: nat)
    requires forall p, q :: p in live && q in live && p != q ==> RegionsApart(p, q)
    requires forall q :: q in live && q != r ==> RegionsApart(Region(addr, size), q)
    ensures var now := Replace(live, r, addr, size);
            forall p, q :: p in now && q in now && p != q ==> RegionsApart(p, q)
  {
  }

  lemma AdjustKeepsShape(w: World, r: Region, newsize: nat) returns (a: Arena)
    requires Inv(w) && r in w.live && AdjustLastAlloc(w.a, r.addr, newsize).Some?
    ensures a == AdjustLastAlloc(w.a, r.addr, newsize).value && Shape(a)
    ensures a.blocks == w.a.blocks && a.cur == w.a.cur && a.cfg == w.a.cfg && a.emptyStart == w.a.emptyStart
    ensures a.lastAlloc == w.a.lastAlloc == r.addr && a.freestart == r.addr + newsize
    ensures Within(Region(r.addr, newsize), a.blocks[a.cur])
  {
    LastAllocEndsAtBump(w, r);
    a := AdjustLastAlloc(w.a, r.addr, newsize).value;
  }

  lemma AdjustKeeps(w: World, r: Region, newsize: nat)
    requires Inv(w) && r in w.live && AdjustLastAlloc(w.a, r.addr, newsize).Some?
    ensures Inv(World(AdjustLastAlloc(w.a, r.addr, newsize).value, Replace(w.live, r, r.addr, newsize)))
  {
    var a := AdjustKeepsShape(w, r, newsize);
    var live', n := Replace(w.live, r, r.addr, newsize), Region(r.addr, newsize);
    forall q | q in w.live && q != r
      ensures RegionsApart(n, q) && (Within(q, a.blocks[a.cur]) ==> q.addr + q.size <= r.addr)
    {
      OthersClearOfLast(w, r, q, r.addr + newsize);
    }
    SameBlocksSameHomes(w.a, a, w.live);
    assert forall q :: q in live' ==> (q in w.live && q != r) || (q == n && newsize > 0);
    if a.cur != 0 { assert BlocksApart(a.blocks[0], a.blocks[a.cur]); }
    assert newsize > 0 && Within(n, a.blocks[0]) ==> a.cur == 0;
    ReplacedStayApart(w.live, r, r.addr, newsize);
  }

  /** Giving back the tail of a region that is not the last allocation moves nothing. */
  lemma TrimKeeps(w: World, r: Region, newsize: nat)
    requires Inv(w) && r in w.live && newsize <= r.size
    requires r.addr != w.a.lastAlloc
    ensures Inv(World(w.a, Replace(w.live, r, r.addr, newsize)))
  {
    var live' := Replace(w.live, r, r.addr, newsize);
    var n := Region(r.addr, newsize);
    var i :| 0 <= i < |w.a.blocks| && Within(r, w.a.blocks[i]);
    assert Within(n, w.a.blocks[i]);
    assert forall q :: q in live' ==> (q in w.live && q != r) || (q == n && newsize > 0);
    forall q | q in w.live && q != r ensures RegionsApart(n, q) {
      assert RegionsApart(r, q);
    }
    TrimStaysPut(w, r, newsize);
    ReplacedStayApart(w.live, r, r.addr, newsize);
  }

  lemma TrimStaysPut(w: World, r: Region, newsize: nat)
    requires Inv(w) && r in w.live && 0 <= newsize <= r.size && r.addr != w.a.lastAlloc
    ensures newsize > 0 && Within(Region(r.addr, newsize), w.a.blocks[w.a.cur]) ==>
              w.a.lastAlloc != 0 && r.addr + newsize <= w.a.lastAlloc
    ensures newsize > 0 && Within(Region(r.addr, newsize), w.a.blocks[0]) ==> w.a.emptyStart <= r.addr
  {
    var a := w.a;
    var i :| 0 <= i < |a.blocks| && Within(r, a.blocks[i]);
    forall k | 0 <= k < |a.blocks| && newsize > 0 && Within(Region(r.addr, newsize), a.blocks[k]) ensures k == i {
      OneHome(a, r, newsize, i, k);
    }
  }

  /** Blocks that share a byte of a region are the same block. */
  lemma OneHome(a: Arena, r: Region, newsize: nat, i: nat, k: nat)
    requires Frame(a) && i < |a.blocks| && k < |a.blocks| && 0 < newsize <= r.size
    requires Within(r, a.blocks[i]) && Within(Region(r.addr, newsize), a.blocks[k])
    ensures k == i
  {
  }

  lemma FreeKeeps(w: World, r: Region)
    requires Inv(w) && (r in w.live || r == NULL_REGION)
    ensures Inv(World(ReturnMemory(w.a, r.addr, r.size), w.live - {r}))
  {
    if r in w.live && r.addr == w.a.lastAlloc {
      LastAllocEndsAtBump(w, r);
      AdjustKeeps(w, r, 0);
      assert Replace(w.live, r, r.addr, 0) == w.live - {r};
    } else {
      SubsetKeeps(w.a, w.live, w.live - {r});
    }
  }

  /** An arena of its first block only, with the bump pointer at its first boundary. */
  lemma AloneIsSound(a: Arena, gap: nat)
    requires ValidConfig(a.cfg) && |a.blocks| == 1 && a.cur == 0 && a.blocks[0].mem > 0 && a.lastAlloc == 0
    requires a.freestart == a.blocks[0].mem && a.remaining == a.blocks[0].size && a.bytes == a.cfg.blockSize
    requires gap < DEFAULT_ALIGNMENT && (gap == 0 || gap < a.remaining) && (a.freestart + gap) % DEFAULT_ALIGNMENT == 0
    ensures var p := a.freestart + gap;
            Inv(World(a.(freestart := p, remaining := a.remaining - gap, emptyStart := p), {}))
  {
    assert a.blocks[1..] == [];
  }

  /** Reset succeeds exactly if the first block reaches a boundary, and then leaves a sound arena. */
  lemma ResetOf(a: Arena)
    requires ValidConfig(a.cfg) && |a.blocks| > 0 && a.blocks[0].mem > 0
    ensures var first := a.blocks[0];
            var gap := Gap(first.mem, DEFAULT_ALIGNMENT);
            && (Reset(a).None? <==> gap > 0 && gap >= first.size)
            && (Reset(a).Some? ==>
                  && Inv(World(Reset(a).value, {}))
                  && Reset(a).value.emptyStart == first.mem + gap && Reset(a).value.blocks == [first])
  {
    var first := a.blocks[0];
    var a0 := a.(blocks := [first], cur := 0, freestart := first.mem, remaining := first.size,
                 lastAlloc := 0, bytes := a.cfg.blockSize);
    assert IsPow2(4) && IsPow2(DEFAULT_ALIGNMENT);
    SatisfyAlignmentFinds(a0, DEFAULT_ALIGNMENT);
    if SatisfyAlignment(a0, DEFAULT_ALIGNMENT).Some? {
      AloneIsSound(a0, Gap(first.mem, DEFAULT_ALIGNMENT));
    }
  }

  lemma FirstBoundary(mem: nat, size: nat, e: nat)
    requires mem == e || mem < e < mem + size
    requires e % DEFAULT_ALIGNMENT == 0 && e < mem + DEFAULT_ALIGNMENT
    ensures var gap := Gap(mem, DEFAULT_ALIGNMENT); e == mem + gap && (gap == 0 || gap < size)
  {
  }

  lemma ResetKeeps(w: World)
    requires Inv(w)
    ensures Reset(w.a).Some? && Inv(World(Reset(w.a).value, {}))
    ensures Reset(w.a).value.emptyStart == w.a.emptyStart
  {
    FirstBoundary(w.a.blocks[0].mem, w.a.blocks[0].size, w.a.emptyStart);
    ResetOf(w.a);
  }

  /** Allocation as an operation, for what GetMemory answers. */
  lemma AllocApplies(w: World, size: nat, alignment: nat, mem: nat)
    requires Inv(w) && SystemPromise(w.a, size, alignment, mem)
    ensures var o := GetMemory(w.a, size, alignment, mem);
            && (o.Fatal? <==> GetMemoryAborts(w.a, size, alignment))
            && (o.Fatal? ==> Apply(w, OpAlloc(size, alignment, mem)).None?)
            && (o.Done? ==>
                  && var w' := World(o.a, Replace(w.live, NULL_REGION, o.ptr, size));
                  && Apply(w, OpAlloc(size, alignment, mem)) == Some(w') && Inv(w')
                  && (size > 0 ==>
                        && o.ptr > 0 && alignment > 0 && o.ptr % alignment == 0
                        && forall r :: r in w.live ==> RegionsApart(r, Region(o.ptr, size))))
  {
    GetMemoryGrants(w, size, alignment, mem);
    var o := GetMemory(w.a, size, alignment, mem);
    assert NULL_REGION !in w.live;
    if o.Done? && size > 0 {
      assert Replace(w.live, NULL_REGION, o.ptr, size) == w.live + {Region(o.ptr, size)};
    } else if o.Done? {
      assert Replace(w.live, NULL_REGION, o.ptr, size) == w.live;
    }
  }

  lemma ShrinkApplies(w: World, r: Region, newsize: nat)
    requires Inv(w) && r in w.live && newsize <= r.size
    ensures var a := AdjustLastAlloc(w.a, r.addr, newsize);
            var w' := World(if a.Some? then a.value else w.a, Replace(w.live, r, r.addr, newsize));
            Inv(w') && Apply(w, OpShrink(r, newsize)) == Some(w')
  {
    if AdjustLastAlloc(w.a, r.addr, newsize).Some? {
      AdjustKeeps(w, r, newsize);
    } else {
      if r.addr == w.a.lastAlloc { LastAllocEndsAtBump(w, r); }
      TrimKeeps(w, r, newsize);
    }
  }

  lemma FreeApplies(w: World, r: Region)
    requires Inv(w) && (r in w.live || r == NULL_REGION)
    ensures var w' := World(ReturnMemory(w.a, r.addr, r.size), w.live - {r});
            Inv(w') && Apply(w, OpFree(r)) == Some(w')
  {
    FreeKeeps(w, r);
  }

  lemma ResetApplies(w: World)
    requires Inv(w)
    ensures Reset(w.a).Some? && Inv(World(Reset(w.a).value, {}))
    ensures Usable(w.a) && Apply(w, OpReset) == Some(World(Reset(w.a).value, {}))
  {
    ResetKeeps(w);
  }

  /** A new arena is sound unless its first block is too short to reach an 8-byte boundary. */
  lemma ConstructWorks(c: Config, first: Block)
    requires ValidConfig(c) && first.mem > 0
    ensures Construct(c, first).None? <==>
              first.mem % DEFAULT_ALIGNMENT != 0 && DEFAULT_ALIGNMENT - first.mem % DEFAULT_ALIGNMENT >= first.size
    ensures Construct(c, first).Some? ==>
              Inv(World(Construct(c, first).value, {})) && Construct(c, first).value.blocks == [first]
  {
    ResetOf(Arena(c, [first], 0, 0, 0, 0, 0, 0));
  }

  lemma ReallocKeeps(w: World, r: Region, newsize: nat, mem: nat)
    requires Inv(w) && (r in w.live || r == NULL_REGION)
    requires ReallocMoves(w.a, r, newsize) ==> SystemPromise(w.a, newsize, 1, mem)
    ensures var o := Realloc(w.a, r, newsize, mem);
            o.Done? ==> Inv(World(o.a, Replace(w.live, r, o.ptr, newsize)))
    ensures Realloc(w.a, r, newsize, mem).Fatal? <==> ReallocMoves(w.a, r, newsize) && GetMemoryAborts(w.a, newsize, 1)
  {
    if AdjustLastAlloc(w.a, r.addr, newsize).Some? {
      AdjustKeeps(w, r, newsize);
    } else if newsize > r.size {
      GetMemoryGrants(w, newsize, 1, mem);
      var o := GetMemory(w.a, newsize, 1, mem);
      if o.Done? {
        SubsetKeeps(o.a, w.live + {Region(o.ptr, newsize)}, Replace(w.live, r, o.ptr, newsize));
      }
    } else if r in w.live {
      if r.addr == w.a.lastAlloc { LastAllocEndsAtBump(w, r); }
      TrimKeeps(w, r, newsize);
    } else {
      SubsetKeeps(w.a, w.live, Replace(w.live, r, 0, newsize));
    }
  }

  // ---------------------------------------------------------------------------
  // The bytes
  // ---------------------------------------------------------------------------

  /** What has been written to memory; the rest is blank. */
  type Ram = map<int, int>

  function Byte(ram: Ram, x: int): int {
    if x in ram then ram[x] else 0
  }

  /** Memory after memcpy(dst, src, n), byte by byte. */
  function Copied(ram: Ram, dst: int, src: int, n: nat): Ram {
    if n == 0 then ram
    else
      var before := Copied(ram, dst, src, n - 1);
      before[dst + n - 1 := Byte(before, src + n - 1)]
  }

  /** On regions that do not overlap, memcpy moves the old bytes and touches nothing else. */
  lemma {:induction false} CopiedAt(ram: Ram, dst: nat, src: nat, n: nat, size: nat, x: int)
    requires n <= size && (n > 0 ==> RegionsApart(Region(dst, size), Region(src, size)))
    ensures Byte(Copied(ram, dst, src, n), x) == Byte(ram, if dst <= x < dst + n then x - dst + src else x)
  {
    if n > 0 {
      CopiedAt(ram, dst, src, n - 1, size, x);
      CopiedAt(ram, dst, src, n - 1, size, src + n - 1);
    }
  }

  function ReallocRam(a: Arena, r: Region, newsize: nat, mem: nat, ram: Ram): Ram
    requires ValidConfig(a.cfg) && a.lastAlloc <= a.freestart && Realloc(a, r, newsize, mem).Done?
  {
    if ReallocMoves(a, r, newsize) then Copied(ram, Realloc(a, r, newsize, mem).ptr, r.addr, r.size) else ram
  }

  /** From ram to after, the first bytes of r are found again at ptr, and other regions are untouched. */
  ghost predicate BytesKept(ram: Ram, after: Ram, live: set<Region>, r: Region, ptr: nat, newsize: nat) {
    && (forall x: int :: ptr <= x < ptr + r.size && x < ptr + newsize ==> Byte(after, x) == Byte(ram, x - ptr + r.addr))
    && (forall q, x: int :: q in live && q != r && q.addr <= x < q.addr + q.size ==> Byte(after, x) == Byte(ram, x))
  }

  lemma CopyKeepsBytes(ram: Ram, live: set<Region>, r: Region, ptr: nat, newsize: nat)
    requires (r in live || r.size == 0) && r.size < newsize
    requires forall q :: q in live ==> RegionsApart(q, Region(ptr, newsize))
    ensures BytesKept(ram, Copied(ram, ptr, r.addr, r.size), live, r, ptr, newsize)
  {
    forall x: int ensures Byte(Copied(ram, ptr, r.addr, r.size), x)
                          == Byte(ram, if ptr <= x < ptr + r.size then x - ptr + r.addr else x) {
      CopiedAt(ram, ptr, r.addr, r.size, r.size, x);
    }
    forall q, x: int | q in live && q != r && q.addr <= x < q.addr + q.size
      ensures Byte(Copied(ram, ptr, r.addr, r.size), x) == Byte(ram, x)
    {
      assert RegionsApart(q, Region(ptr, newsize));
    }
  }

  lemma ReallocLeaves(w: World, r: Region, newsize: nat, mem: nat, a: Arena, ptr: nat)
    requires Inv(w) && (r in w.live || r == NULL_REGION)
    requires ReallocMoves(w.a, r, newsize) ==> SystemPromise(w.a, newsize, 1, mem)
    requires Realloc(w.a, r, newsize, mem) == Done(a, ptr)
    ensures Inv(World(a, Replace(w.live, r, ptr, newsize)))
  {
    ReallocKeeps(w, r, newsize, mem);
  }

  /** Whatever Realloc does, the bytes common to both sizes survive and no one else's change. */
  lemma ReallocKeepsBytes(w: World, r: Region, newsize: nat, mem: nat, ram: Ram)
    requires Inv(w) && Allowed(w, OpRealloc(r, newsize, mem)) && Realloc(w.a, r, newsize, mem).Done?
    ensures BytesKept(ram, ReallocRam(w.a, r, newsize, mem, ram), w.live, r, Realloc(w.a, r, newsize, mem).ptr, newsize)
  {
    if ReallocMoves(w.a, r, newsize) {
      ReallocGoesElsewhere(w, r, newsize, mem);
      CopyKeepsBytes(ram, w.live, r, Realloc(w.a, r, newsize, mem).ptr, newsize);
    } else {
      assert Realloc(w.a, r, newsize, mem).ptr == r.addr;
    }
  }

  lemma ReallocGoesElsewhere(w: World, r: Region, newsize: nat, mem: nat)
    requires Inv(w) && Allowed(w, OpRealloc(r, newsize, mem)) && Realloc(w.a, r, newsize, mem).Done?
    requires ReallocMoves(w.a, r, newsize)
    ensures forall q :: q in w.live ==> RegionsApart(q, Region(Realloc(w.a, r, newsize, mem).ptr, newsize))
  {
    GetMemoryGrants(w, newsize, 1, mem);
  }

  // ---------------------------------------------------------------------------
  // Whole runs
  // ---------------------------------------------------------------------------

  ghost predicate Aborts(w: World, op: Op)
    requires Usable(w.a)
  {
    match op
    case OpAlloc(size, alignment, _) => GetMemoryAborts(w.a, size, alignment)
    case OpRealloc(r, newsize, _) => ReallocMoves(w.a, r, newsize) && GetMemoryAborts(w.a, newsize, 1)
    case _ => false
  }

  lemma OpKeepsInv(w: World, op: Op)
    requires Inv(w) && Allowed(w, op)
    ensures Apply(w, op).None? <==> Aborts(w, op)
    ensures Apply(w, op).Some? ==> Inv(Apply(w, op).value)
  {
    match op
    case OpAlloc(size, alignment, mem) => AllocApplies(w, size, alignment, mem);
    case OpFree(r) => FreeKeeps(w, r);
    case OpShrink(r, newsize) => ShrinkApplies(w, r, newsize);
    case OpRealloc(r, newsize, mem) => ReallocKeeps(w, r, newsize, mem);
    case OpReset => ResetKeeps(w);
  }

  /** Every operation of the run is one its clients may make, and none ends the process. */
  ghost predicate IsRun(w: World, ops: seq<Op>)
    requires Inv(w)
    decreases |ops|
  {
    ops == [] ||
    (Allowed(w, ops[0]) && Apply(w, ops[0]).Some?
     && (OpKeepsInv(w, ops[0]); IsRun(Apply(w, ops[0]).value, ops[1..])))
  }

  ghost function Final(w: World, ops: seq<Op>): (w': World)
    requires Inv(w) && IsRun(w, ops)
    ensures Inv(w')
    decreases |ops|
  {
    if ops == [] then w else (OpKeepsInv(w, ops[0]); Final(Apply(w, ops[0]).value, ops[1..]))
  }

  /**
   After every run of Alloc, AllocAligned, Free, Shrink, Realloc and Reset: the live
   regions are pairwise disjoint, each lies inside one owned block, none reaches into
   the free tail of the current block, bytes_allocated is the block size plus the sizes
   of all blocks but the first, and a page-aligned arena has added whole pages only.
   */
  lemma RunIsSafe(start: World, ops: seq<Op>)
    requires Inv(start) && IsRun(start, ops)
    ensures var w := Final(start, ops);
            && (forall r, q :: r in w.live && q in w.live && r != q ==> RegionsApart(r, q))
            && (forall r :: r in w.live ==> HasHome(w.a, r))
            && (forall r :: r in w.live ==> RegionsApart(r, Region(w.a.freestart, w.a.remaining)))
            && w.a.bytes == w.a.cfg.blockSize + SumSizes(w.a.blocks[1..])
            && (forall i :: 1 <= i < |w.a.blocks| ==> OnPages(w.a.cfg, w.a.blocks[i]))
  {
    var w := Final(start, ops);
    forall r | r in w.live ensures RegionsApart(r, Region(w.a.freestart, w.a.remaining)) {
      TailIsApart(w.a, w.live, r, Region(w.a.freestart, w.a.remaining));
    }
  }

  // ---------------------------------------------------------------------------
  // Consequences for clients
  // ---------------------------------------------------------------------------

  /** Power-of-two alignments up to 1 MB never stop the process, on pages up to 1 MB. */
  lemma UsualAlignmentsNeverAbort(a: Arena, size: nat, alignment: nat)
    requires ValidConfig(a.cfg) && (a.cfg.pageAligned ==> a.cfg.pageSize <= MAX_ALIGNMENT)
    requires IsPow2(alignment) && alignment <= MAX_ALIGNMENT
    ensures !GetMemoryAborts(a, size, alignment)
  {
    AdjustedAlignmentOfPower(a.cfg, alignment);
  }

  /** A live region can be resized in place exactly when it is the last one and the block has room. */
  lemma ResizesInPlaceExactly(w: World, r: Region, newsize: nat)
    requires Inv(w) && r in w.live
    ensures var adjusted := AdjustLastAlloc(w.a, r.addr, newsize);
            var b := w.a.blocks[w.a.cur];
            && (adjusted.Some? <==> r.addr == w.a.lastAlloc && r.addr + newsize <= b.mem + b.size)
            && (adjusted.Some? ==> adjusted.value == w.a.(freestart := r.addr + newsize,
                                                          remaining := b.mem + b.size - (r.addr + newsize)))
  {
    var i :| 0 <= i < |w.a.blocks| && Within(r, w.a.blocks[i]);
    if r.addr == w.a.lastAlloc { LastAllocEndsAtBump(w, r); }
  }

  /** Freeing what was just taken from the current block puts the bump pointer back. */
  lemma FreeUndoesAlloc(w: World, size: nat, alignment: nat, mem: nat)
    requires Inv(w) && SystemPromise(w.a, size, alignment, mem) && IsPow2(alignment)
    requires GetMemory(w.a, size, alignment, mem).Done? && BlockRequest(w.a, size, alignment).None? && size > 0
    ensures var o := GetMemory(w.a, size, alignment, mem);
            var gap := Gap(w.a.freestart, alignment);
            && o.ptr == w.a.freestart + gap
            && ReturnMemory(o.a, o.ptr, size) ==
               w.a.(freestart := o.ptr, remaining := w.a.remaining - gap, lastAlloc := o.ptr)
  {
    PowerOfTwoCheck(alignment);
    SatisfyAlignmentFinds(w.a, alignment);
  }

  predicate IsEmpty(a: Arena) {
    a.freestart == a.emptyStart && |a.blocks| == 1
  }

  /** An arena that says it is empty has no live region. */
  lemma EmptyMeansNothingLive(w: World)
    requires Inv(w) && IsEmpty(w.a)
    ensures w.live == {}
  {
    assert forall r :: r in w.live ==> Within(r, w.a.blocks[0]);
  }

  /**
   Freeing a region makes the arena empty exactly when it is the last allocation, begins
   where an empty arena begins, and no block has been added.
   */
  lemma FreeEmptiesExactly(w: World, r: Region)
    requires Inv(w) && r in w.live
    ensures IsEmpty(ReturnMemory(w.a, r.addr, r.size)) <==>
              |w.a.blocks| == 1 && r.addr == w.a.lastAlloc == w.a.emptyStart
  {
    if r.addr == w.a.lastAlloc { LastAllocEndsAtBump(w, r); }
    var i :| 0 <= i < |w.a.blocks| && Within(r, w.a.blocks[i]);
  }

  /** A new arena, with nothing allocated. */
  ghost function NewWorld(c: Config, first: Block): (w: World)
    requires ValidConfig(c) && first.mem > 0 && Construct(c, first).Some?
    ensures Inv(w) && w.live == {} && w.a.cfg == c && w.a.blocks == [first] && w.a.cur == 0
    ensures w.a.freestart == w.a.emptyStart && w.a.lastAlloc == 0
  {
    ConstructWorks(c, first);
    World(Construct(c, first).value, {})
  }

  /** One operation that clients may make leads from one world to the next. */
  ghost predicate Step(w: World, op: Op, w': World) {
    Usable(w.a) && Allowed(w, op) && Apply(w, op) == Some(w')
  }

  /** The worlds a run goes through. */
  ghost predicate IsTrail(ws: seq<World>, ops: seq<Op>) {
    |ws| == |ops| + 1 && forall i :: 0 <= i < |ops| ==> Step(ws[i], ops[i], ws[i + 1])
  }

  lemma {:induction false} TrailIsRun(ws: seq<World>, ops: seq<Op>)
    requires IsTrail(ws, ops) && Inv(ws[0])
    ensures IsRun(ws[0], ops) && Final(ws[0], ops) == ws[|ops|]
    decreases |ops|
  {
    if ops != [] {
      assert Step(ws[0], ops[0], ws[1]);
      OpKeepsInv(ws[0], ops[0]);
      forall i | 0 <= i < |ops[1..]| ensures Step(ws[1..][i], ops[1..][i], ws[1..][i + 1]) {
        assert Step(ws[i + 1], ops[i + 1], ws[i + 2]);
      }
      TrailIsRun(ws[1..], ops[1..]);
    }
  }

  /** Plain Alloc takes from the current block while it has room. */
  lemma PlainAlloc(w: World, size: nat)
    requires Usable(w.a) && 0 < size <= w.a.remaining && NULL_REGION !in w.live
    ensures Step(w, OpAlloc(size, 1, 0), World(Bump(w.a, size), w.live + {Region(w.a.freestart, size)}))
  {
    assert Replace(w.live, NULL_REGION, w.a.freestart, size) == w.live + {Region(w.a.freestart, size)};
  }

  function AllocTwiceFreeBoth(size: nat, x: Region, y: Region): seq<Op> {
    [OpAlloc(size, 1, 0), OpAlloc(size, 1, 0), OpFree(x), OpFree(y)]
  }

  lemma TrailOfTwo(w: World, size: nat, older: Region, newer: Region, x: Region, y: Region) returns (ws: seq<World>)
    requires Usable(w.a) && w.live == {} && size > 0 && 2 * size <= w.a.remaining && w.a.freestart == w.a.emptyStart
    requires older == Region(w.a.freestart, size) && newer == Region(w.a.freestart + size, size)
    requires (x == older && y == newer) || (x == newer && y == older)
    ensures IsTrail(ws, AllocTwiceFreeBoth(size, x, y)) && ws[0] == w
    ensures ws[4].live == {} && !IsEmpty(ws[4].a)
  {
    var w1 := World(Bump(w.a, size), w.live + {older});
    var w2 := World(Bump(w1.a, size), w1.live + {newer});
    var w3 := World(ReturnMemory(w2.a, x.addr, x.size), w2.live - {x});
    var w4 := World(ReturnMemory(w3.a, y.addr, y.size), w3.live - {y});
    PlainAlloc(w, size);
    PlainAlloc(w1, size);
    ws := [w, w1, w2, w3, w4];
  }

  /**
   So having nothing live does not make the arena empty: in any new arena, of two
   allocations freed in either order the older one stays, because only the most recent
   can be taken back.
   */
  lemma NothingLiveNeedNotBeEmpty(c: Config, first: Block, size: nat, x: Region, y: Region)
    requires ValidConfig(c) && first.mem > 0 && Construct(c, first).Some?
    requires size > 0 && 2 * size <= NewWorld(c, first).a.remaining
    requires var p := NewWorld(c, first).a.freestart; {x, y} == {Region(p, size), Region(p + size, size)}
    ensures var w, ops := NewWorld(c, first), AllocTwiceFreeBoth(size, x, y);
            IsRun(w, ops) && Final(w, ops).live == {} && !IsEmpty(Final(w, ops).a)
  {
    var w := NewWorld(c, first);
    var older, newer := Region(w.a.freestart, size), Region(w.a.freestart + size, size);
    assert x in {older, newer} && y in {older, newer} && older in {x, y} && newer in {x, y};
    var ws := TrailOfTwo(w, size, older, newer, x, y);
    TrailIsRun(ws, AllocTwiceFreeBoth(size, x, y));
  }

  // ---------------------------------------------------------------------------
  // Fragmentation
  // ---------------------------------------------------------------------------

  /** A run of plain Alloc calls, as requested sizes and the addresses the system would give. */
  function Allocs(requests: seq<(nat, nat)>): (ops: seq<Op>)
    ensures |ops| == |requests|
  {
    if requests == [] then [] else [OpAlloc(requests[0].0, 1, requests[0].1)] + Allocs(requests[1..])
  }

  function TotalRequested(requests: seq<(nat, nat)>): nat {
    if requests == [] then 0 else requests[0].0 + TotalRequested(requests[1..])
  }

  /** Three quarters of all later blocks is paid for by requests outside the current block. */
  predicate Paid(a: Arena, requested: int) {
    && a.remaining <= a.cfg.blockSize
    && 3 * (a.bytes - a.cfg.blockSize) <= 4 * (requested - (a.cfg.blockSize - a.remaining))
  }

  lemma AllocStaysPaid(a: Arena, size: nat, mem: nat, requested: int)
    requires ValidConfig(a.cfg) && !a.cfg.pageAligned && Paid(a, requested) && GetMemory(a, size, 1, mem).Done?
    ensures Paid(GetMemory(a, size, 1, mem).a, requested + size)
    ensures GetMemory(a, size, 1, mem).a.cfg == a.cfg
  {
    assert IsPow2(1);
    PowerOfTwoCheck(1);
    AdjustedAlignmentOfPower(a.cfg, 1);
    SatisfyAlignmentFinds(a, 1);
    if 0 < size && !(size <= a.remaining) && size <= a.cfg.blockSize / 4 {
      var b := NewBlock(a.cfg, a.cfg.blockSize, 1, mem);
      assert b.size == a.cfg.blockSize;
      SatisfyAlignmentFinds(AddBlock(a, b).(cur := |a.blocks|, freestart := b.mem, remaining := b.size), 1);
    }
  }

  lemma {:induction false} RunStaysPaid(w: World, requests: seq<(nat, nat)>, requested: int)
    requires Inv(w) && IsRun(w, Allocs(requests)) && !w.a.cfg.pageAligned && Paid(w.a, requested)
    ensures Final(w, Allocs(requests)).a.cfg == w.a.cfg
    ensures Paid(Final(w, Allocs(requests)).a, requested + TotalRequested(requests))
    decreases |requests|
  {
    if requests != [] {
      var ops := Allocs(requests);
      OpKeepsInv(w, ops[0]);
      AllocStaysPaid(w.a, requests[0].0, requests[0].1, requested);
      assert ops[1..] == Allocs(requests[1..]);
      RunStaysPaid(Apply(w, ops[0]).value, requests[1..], requested + requests[0].0);
    }
  }

  /**
   An arena that owns its first block and serves plain Alloc calls never holds more
   beyond that block than four thirds of what was asked for.
   */
  lemma FragmentationBound(c: Config, first: Block, requests: seq<(nat, nat)>, a: Arena)
    requires ValidConfig(c) && !c.pageAligned && first.mem > 0 && first.size == c.blockSize
    requires first.mem % NEW_ALIGNMENT == 0 && Construct(c, first) == Some(a)
    requires Inv(World(a, {})) && IsRun(World(a, {}), Allocs(requests))
    ensures var w := Final(World(a, {}), Allocs(requests));
            3 * (w.a.bytes - c.blockSize) <= 4 * TotalRequested(requests)
  {
    OwnFirstBlockIsWhole(c, first, a);
    RunStaysPaid(World(a, {}), requests, 0);
  }

  lemma OwnFirstBlockIsWhole(c: Config, first: Block, a: Arena)
    requires ValidConfig(c) && first.mem > 0 && first.size == c.blockSize
    requires first.mem % NEW_ALIGNMENT == 0 && Construct(c, first) == Some(a)
    ensures Paid(a, 0) && a.cfg == c
  {
    assert IsPow2(4) && IsPow2(DEFAULT_ALIGNMENT);
    assert first.mem % DEFAULT_ALIGNMENT == 0;
    SatisfyAlignmentFinds(Arena(c, [first], 0, first.mem, first.size, 0, 0, c.blockSize), DEFAULT_ALIGNMENT);
  }
}
