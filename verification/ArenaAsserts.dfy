/**
 What debug builds assert about the current block: that no more than block_size_ bytes of
 it remain, and that the last allocation is no larger than that. Neither is an invariant
 for every client. Each is one for the clients that ask only for certain alignments
 exactly if none of these alignments makes a new block larger than block_size_.
 */
module ArenaAsserts {
  import opened Options
  import opened ArenaMath
  import opened ArenaSpec

  datatype Assert =
    | RestFits     // GetMemory: remaining_ <= block_size_
    | LastFits     // AdjustLastAlloc: freestart_ <= last_alloc_ + block_size_

  predicate Holds(k: Assert, a: Arena) {
    match k
    case RestFits => a.remaining <= a.cfg.blockSize
    case LastFits => a.lastAlloc != 0 ==> a.freestart <= a.lastAlloc + a.cfg.blockSize
  }

  // ---------------------------------------------------------------------------
  // Alignments that round blocks up
  // ---------------------------------------------------------------------------

  /** A block made for this alignment would be larger than the block size. */
  predicate RoundsUp(c: Config, alignment: nat)
    requires ValidConfig(c) && alignment > 0
  {
    AdjustedAlignmentPositive(c, alignment);
    AdjustedSize(c, c.blockSize, AdjustedAlignment(c, alignment)) > c.blockSize
  }

  /** What a block is aligned to. */
  function Boundary(c: Config, alignment: nat): nat {
    if c.pageAligned && c.pageSize > alignment then c.pageSize else alignment
  }

  lemma WholeStaysPut(x: nat, n: nat)
    requires n > 0 && x > 0
    ensures ((x - 1) / n + 1) * n > x <==> x % n != 0
  {
    RoundUp(x, n);
    if x % n == 0 {
      var q, k := (x - 1) / n, x / n;
      assert x == n * k;
      assert x - 1 == n * q + (x - 1) % n;
      SameQuotient(n, k, q, (x - 1) % n);
      assert (q + 1) * n == x;
    }
  }

  lemma SameQuotient(n: nat, k: nat, q: nat, r: nat)
    requires n > 0 && r < n && n * k == n * q + r + 1
    ensures k == q + 1
  {
    if k <= q {
      MulMonotone(n, k, q);
    } else if k >= q + 2 {
      MulMonotone(n, q + 2, k);
    }
  }

  lemma MulMonotone(n: nat, k: nat, q: nat)
    requires k <= q
    ensures n * k <= n * q
  {
  }

  /** Which alignments those are, from the configuration alone. */
  lemma RoundsUpExactly(c: Config, alignment: nat)
    requires ValidConfig(c) && IsPow2(alignment)
    ensures var m := Boundary(c, alignment);
            && m > 0
            && (RoundsUp(c, alignment) <==>
                  || (m > NEW_ALIGNMENT && c.blockSize > m && c.blockSize % m != 0)
                  || (c.pageAligned && c.pageSize > 0 && c.blockSize % c.pageSize != 0))
  {
    AdjustedAlignmentOfPower(c, alignment);
    var m := Boundary(c, alignment);
    if c.pageAligned {
      PagesRoundUp(c, m);
    } else {
      assert alignment == 1 ||
             AdjustedAlignment(c, alignment) == (if m <= DEFAULT_ALIGNMENT then DEFAULT_ALIGNMENT else m);
    }
  }

  lemma PagesRoundUp(c: Config, m: nat)
    requires ValidConfig(c) && c.pageAligned && m > NEW_ALIGNMENT
    ensures AdjustedSize(c, c.blockSize, m) > c.blockSize <==>
              (c.blockSize > m && c.blockSize % m != 0) || c.blockSize % c.pageSize != 0
  {
    var excess := c.blockSize % m;
    var rounded := if c.blockSize > m && excess > 0 then c.blockSize + (m - excess) else c.blockSize;
    RoundUp(rounded, c.pageSize);
    WholeStaysPut(rounded, c.pageSize);
  }

  // ---------------------------------------------------------------------------
  // Without rounding both assertions hold throughout
  // ---------------------------------------------------------------------------

  ghost predicate CurrentFits(a: Arena)
    requires Frame(a)
  {
    a.blocks[a.cur].size <= a.cfg.blockSize
  }

  lemma FittingBlockMeetsAsserts(a: Arena, k: Assert)
    requires Shape(a) && CurrentFits(a)
    ensures Holds(k, a)
  {
  }

  /** What a call that opens a block leaves: the request at the start of the new block. */
  lemma NewBlockTaken(w: World, size: nat, alignment: nat, mem: nat)
    requires Inv(w) && SystemPromise(w.a, size, alignment, mem) && GetMemory(w.a, size, alignment, mem).Done?
    requires 0 < size <= w.a.cfg.blockSize / 4 && BlockRequest(w.a, size, alignment).Some?
    ensures IsPow2(alignment) && 0 < AdjustedAlignment(w.a.cfg, alignment) <= MAX_ALIGNMENT
    ensures var o := GetMemory(w.a, size, alignment, mem);
            var b := NewBlock(w.a.cfg, w.a.cfg.blockSize, alignment, mem);
            && o.ptr == mem && o.a.cfg == w.a.cfg && o.a.blocks == w.a.blocks + [b] && o.a.cur == |w.a.blocks|
            && o.a.lastAlloc == mem && o.a.freestart == mem + size && o.a.remaining == b.size - size
  {
    PowerOfTwoCheck(alignment);
    AdjustedAlignmentPositive(w.a.cfg, alignment);
    var here := SatisfyAlignment(w.a, alignment);
    MakeNewBlockSucceeds(if here.Some? then here.value else w.a, alignment, mem);
  }

  /**
   Right after a call that opens a block, the last allocation fits, and the rest does exactly
   if the rounding of the block is no more than the request.
   */
  lemma AssertAfterNewBlock(w: World, size: nat, alignment: nat, mem: nat)
    requires Inv(w) && SystemPromise(w.a, size, alignment, mem) && GetMemory(w.a, size, alignment, mem).Done?
    requires 0 < size <= w.a.cfg.blockSize / 4 && BlockRequest(w.a, size, alignment).Some?
    ensures AdjustedAlignment(w.a.cfg, alignment) > 0
    ensures var c, a := w.a.cfg, GetMemory(w.a, size, alignment, mem).a;
            && Holds(LastFits, a)
            && (Holds(RestFits, a) <==>
                  AdjustedSize(c, c.blockSize, AdjustedAlignment(c, alignment)) - c.blockSize <= size)
  {
    NewBlockTaken(w, size, alignment, mem);
  }

  /** An allocation that opens no block for small objects stays in its block. */
  lemma OtherwiseSameBlock(a: Arena, size: nat, alignment: nat, mem: nat)
    requires ValidConfig(a.cfg) && GetMemory(a, size, alignment, mem).Done?
    requires size > a.cfg.blockSize / 4 || BlockRequest(a, size, alignment).None?
    ensures var a' := GetMemory(a, size, alignment, mem).a;
            a'.cfg == a.cfg && a'.cur == a.cur && a.blocks <= a'.blocks
  {
  }

  /** The alignment is one that allocation accepts, and a block made for it is too large. */
  ghost predicate Oversizes(c: Config, alignment: nat)
    requires ValidConfig(c)
  {
    IsPow2(alignment) && AdjustedAlignment(c, alignment) <= MAX_ALIGNMENT && RoundsUp(c, alignment)
  }

  lemma GetMemoryKeepsFit(w: World, size: nat, alignment: nat, mem: nat)
    requires Inv(w) && CurrentFits(w.a) && SystemPromise(w.a, size, alignment, mem)
    requires size > 0 ==> !Oversizes(w.a.cfg, alignment)
    requires GetMemory(w.a, size, alignment, mem).Done?
    ensures FitsLike(w.a, GetMemory(w.a, size, alignment, mem).a)
  {
    if size > w.a.cfg.blockSize / 4 || BlockRequest(w.a, size, alignment).None? {
      OtherwiseSameBlock(w.a, size, alignment, mem);
    } else {
      NewBlockTaken(w, size, alignment, mem);
    }
  }

  /** The arena that follows has the same settings and first block, and its current block fits. */
  predicate FitsLike(a: Arena, a': Arena) {
    && a'.cfg == a.cfg && 0 < |a.blocks| && a'.cur < |a'.blocks| && a'.blocks[a'.cur].size <= a'.cfg.blockSize
    && a'.blocks[0] == a.blocks[0]
  }

  /** The operation asks for memory at these alignments only; Realloc asks for alignment 1. */
  predicate AsksWithin(op: Op, alignments: set<nat>) {
    match op
    case OpAlloc(size, alignment, _) => size > 0 ==> alignment in alignments
    case OpRealloc(_, _, _) => 1 in alignments
    case _ => true
  }

  ghost predicate NoneOversizes(c: Config, alignments: set<nat>)
    requires ValidConfig(c)
  {
    forall alignment :: alignment in alignments ==> !Oversizes(c, alignment)
  }

  lemma OpKeepsFit(w: World, op: Op, alignments: set<nat>)
    requires Inv(w) && CurrentFits(w.a) && w.a.blocks[0].size <= w.a.cfg.blockSize
    requires Allowed(w, op) && Apply(w, op).Some? && AsksWithin(op, alignments) && NoneOversizes(w.a.cfg, alignments)
    ensures FitsLike(w.a, Apply(w, op).value.a)
  {
    match op
    case OpAlloc(size, alignment, mem) => GetMemoryKeepsFit(w, size, alignment, mem);
    case OpRealloc(r, newsize, mem) =>
      if ReallocMoves(w.a, r, newsize) {
        GetMemoryKeepsFit(w, newsize, 1, mem);
      }
    case _ =>
  }

  lemma {:induction false} AssertsHoldOnRuns(w: World, ops: seq<Op>, alignments: set<nat>, k: Assert)
    requires Inv(w) && IsRun(w, ops) && CurrentFits(w.a) && w.a.blocks[0].size <= w.a.cfg.blockSize
    requires NoneOversizes(w.a.cfg, alignments) && forall i :: 0 <= i < |ops| ==> AsksWithin(ops[i], alignments)
    ensures Holds(k, Final(w, ops).a)
    decreases |ops|
  {
    if ops == [] {
      FittingBlockMeetsAsserts(w.a, k);
    } else {
      OpKeepsInv(w, ops[0]);
      OpKeepsFit(w, ops[0], alignments);
      AssertsHoldOnRuns(Apply(w, ops[0]).value, ops[1..], alignments, k);
    }
  }

  // ---------------------------------------------------------------------------
  // With rounding each of them can be broken
  // ---------------------------------------------------------------------------

  /** An address above the first block that the system may answer with. */
  function Above(first: Block, boundary: nat): nat {
    (first.mem + first.size + 1) * boundary
  }

  lemma AboveIsFresh(c: Config, first: Block, alignment: nat, m: nat)
    requires ValidConfig(c) && IsPow2(alignment)
    requires var d := AdjustedAlignment(c, alignment); m == if d > NEW_ALIGNMENT then d else NEW_ALIGNMENT
    ensures AdjustedAlignment(c, alignment) > 0
    ensures var b := NewBlock(c, c.blockSize, alignment, Above(first, m));
            b.mem > 0 && b.mem % m == 0 && BlocksApart(first, b)
  {
    AdjustedAlignmentPositive(c, alignment);
    var q := first.mem + first.size + 1;
    MulMonotone(q, 1, m);
    RemainderUnique(q * m, m, q, 0);
  }

  /** Takes what is left of the first block. */
  lemma FillsUp(w: World) returns (w': World)
    requires Inv(w) && w.live == {} && |w.a.blocks| == 1
    ensures Step(w, OpAlloc(w.a.remaining, 1, 0), w') && Inv(w')
    ensures w'.a.remaining == 0 && w'.a.cfg == w.a.cfg && w'.a.blocks == w.a.blocks
  {
    var op := OpAlloc(w.a.remaining, 1, 0);
    OpKeepsInv(w, op);
    w' := Apply(w, op).value;
  }

  /** One byte at the alignment then opens a block. */
  lemma OpensBlock(w: World, alignment: nat, mem: nat) returns (w': World)
    requires Inv(w) && w.a.remaining == 0 && Oversizes(w.a.cfg, alignment)
    requires IsFresh(w.a, NewBlock(w.a.cfg, w.a.cfg.blockSize, alignment, mem))
    ensures Step(w, OpAlloc(1, alignment, mem), w') && Usable(w'.a)
    ensures Region(mem, 1) in w'.live && w'.a.lastAlloc == mem && w'.a.freestart == mem + 1 && mem > 0
    ensures w'.a.cfg == w.a.cfg && w'.a.remaining >= w.a.cfg.blockSize
  {
    PowerOfTwoCheck(alignment);
    SatisfyAlignmentFinds(w.a, alignment);
    var op := OpAlloc(1, alignment, mem);
    GetMemoryGrants(w, 1, alignment, mem);
    NewBlockTaken(w, 1, alignment, mem);
    OpKeepsInv(w, op);
    w' := Apply(w, op).value;
  }

  /** Giving the byte back, or growing it to the end of the block, breaks one or the other. */
  function BreakingOp(k: Assert, mem: nat, whole: nat): Op {
    if k == RestFits then OpFree(Region(mem, 1)) else OpRealloc(Region(mem, 1), whole, 0)
  }

  lemma Breaks(w: World, mem: nat, k: Assert) returns (w': World)
    requires Usable(w.a) && Region(mem, 1) in w.live && mem > 0 && w.a.lastAlloc == mem && w.a.freestart == mem + 1
    requires w.a.remaining >= w.a.cfg.blockSize
    ensures Step(w, BreakingOp(k, mem, w.a.remaining + 1), w') && !Holds(k, w'.a)
  {
    w' := Apply(w, BreakingOp(k, mem, w.a.remaining + 1)).value;
  }

  lemma FillsAndOpens(w: World, alignment: nat, mem: nat) returns (w1: World, w2: World)
    requires Inv(w) && w.live == {} && |w.a.blocks| == 1 && Oversizes(w.a.cfg, alignment)
    requires IsFresh(w.a, NewBlock(w.a.cfg, w.a.cfg.blockSize, alignment, mem))
    ensures Step(w, OpAlloc(w.a.remaining, 1, 0), w1) && Step(w1, OpAlloc(1, alignment, mem), w2)
    ensures Usable(w2.a) && Region(mem, 1) in w2.live && w2.a.lastAlloc == mem && w2.a.freestart == mem + 1 && mem > 0
    ensures w2.a.remaining >= w2.a.cfg.blockSize
  {
    w1 := FillsUp(w);
    w2 := OpensBlock(w1, alignment, mem);
  }

  lemma BreakingTrail(w: World, alignment: nat, mem: nat, k: Assert) returns (ws: seq<World>, ops: seq<Op>)
    requires Inv(w) && w.live == {} && |w.a.blocks| == 1 && Oversizes(w.a.cfg, alignment)
    requires IsFresh(w.a, NewBlock(w.a.cfg, w.a.cfg.blockSize, alignment, mem))
    ensures IsTrail(ws, ops) && ws[0] == w && !Holds(k, ws[|ops|].a)
    ensures forall i :: 0 <= i < |ops| ==> AsksWithin(ops[i], {1, alignment})
  {
    var w1, w2 := FillsAndOpens(w, alignment, mem);
    var w3 := Breaks(w2, mem, k);
    ws, ops := ThreeSteps(w, OpAlloc(w.a.remaining, 1, 0), w1, OpAlloc(1, alignment, mem), w2,
                          BreakingOp(k, mem, w2.a.remaining + 1), w3);
  }

  lemma ThreeSteps(w: World, op1: Op, w1: World, op2: Op, w2: World, op3: Op, w3: World)
    returns (ws: seq<World>, ops: seq<Op>)
    requires Step(w, op1, w1) && Step(w1, op2, w2) && Step(w2, op3, w3)
    ensures ws == [w, w1, w2, w3] && ops == [op1, op2, op3] && IsTrail(ws, ops)
  {
    ws, ops := [w, w1, w2, w3], [op1, op2, op3];
    forall i | 0 <= i < |ops| ensures Step(ws[i], ops[i], ws[i + 1]) {
      assert i == 0 || i == 1 || i == 2;
    }
  }

  /** Any alignment that makes blocks too large breaks either assertion on some run. */
  lemma RoundingBreaks(c: Config, first: Block, alignment: nat, k: Assert) returns (ops: seq<Op>)
    requires ValidConfig(c) && first.mem > 0 && Construct(c, first).Some? && Oversizes(c, alignment)
    ensures IsRun(NewWorld(c, first), ops) && !Holds(k, Final(NewWorld(c, first), ops).a)
    ensures forall i :: 0 <= i < |ops| ==> AsksWithin(ops[i], {1, alignment})
  {
    var w := NewWorld(c, first);
    var d := AdjustedAlignment(c, alignment);
    var m := if d > NEW_ALIGNMENT then d else NEW_ALIGNMENT;
    AboveIsFresh(c, first, alignment, m);
    var ws;
    ws, ops := BreakingTrail(w, alignment, Above(first, m), k);
    TrailIsRun(ws, ops);
  }

  /** The assertion holds after every run that asks for these alignments only. */
  ghost predicate IsInvariant(w: World, alignments: set<nat>, k: Assert)
    requires Inv(w)
  {
    forall ops :: IsRun(w, ops) && (forall i :: 0 <= i < |ops| ==> AsksWithin(ops[i], alignments)) ==>
                    Holds(k, Final(w, ops).a)
  }

  /**
   For clients that use Alloc and AllocAligned with certain alignments, each assertion is an
   invariant of a new arena if and only if none of these alignments makes a block of the
   usual size larger. RoundsUpExactly says which do.
   */
  lemma AssertIsInvariantExactly(c: Config, first: Block, alignments: set<nat>, k: Assert)
    requires ValidConfig(c) && first.mem > 0 && first.size <= c.blockSize && Construct(c, first).Some?
    requires 1 in alignments
    ensures IsInvariant(NewWorld(c, first), alignments, k) <==> NoneOversizes(c, alignments)
  {
    var w := NewWorld(c, first);
    if NoneOversizes(c, alignments) {
      forall ops | IsRun(w, ops) && (forall i :: 0 <= i < |ops| ==> AsksWithin(ops[i], alignments))
        ensures Holds(k, Final(w, ops).a)
      {
        AssertsHoldOnRuns(w, ops, alignments, k);
      }
    } else {
      var alignment :| alignment in alignments && Oversizes(c, alignment);
      var ops := RoundingBreaks(c, first, alignment, k);
      assert forall i :: 0 <= i < |ops| ==> AsksWithin(ops[i], alignments);
    }
  }

  lemma Oversized(c: Config, alignment: nat)
    requires c.blockSize == 1040 && !c.pageAligned && alignment == 64
    ensures ValidConfig(c) && Oversizes(c, alignment)
  {
    assert IsPow2(4) && IsPow2(16) && IsPow2(64);
    AdjustedAlignmentOfPower(c, alignment);
    RoundsUpExactly(c, alignment);
  }

  /** The assertions do fail: with blocks of 1040 bytes, for clients that align to 64. */
  lemma AssertCanFail(c: Config, first: Block, alignment: nat, k: Assert)
    requires c.blockSize == 1040 && !c.pageAligned && alignment == 64
    requires first.mem == 4096 && first.size == 1040
    ensures ValidConfig(c) && Construct(c, first).Some?
    ensures !IsInvariant(NewWorld(c, first), {1, alignment}, k)
  {
    ConstructWorks(c, first);
    Oversized(c, alignment);
    var ops := RoundingBreaks(c, first, alignment, k);
  }
}
