/**
 SafeArena: one arena shared by threads that take its mutex around every operation.
 Realloc is not one such operation: it takes the mutex twice and copies in between and
 after without it. Threads interleave at every lock section and at every copied byte.
 */
module SafeArena {
  import opened Options
  import opened ArenaSpec

  type Tid = nat

  /** Where a thread is inside Realloc; saved is what the old region held at the call. */
  datatype Phase =
    | Idle
    | Missed(r: Region, newsize: nat, saved: seq<int>)
    | Copying(r: Region, newsize: nat, saved: seq<int>, ptr: nat, k: nat)

  datatype State = State(w: World, ram: Ram, owner: map<Region, Tid>, phase: map<Tid, Phase>)

  datatype Act =
    | Alloc(size: nat, alignment: nat, mem: nat)   // one lock section
    | Free(r: Region)                              // one lock section
    | Shrink(r: Region, newsize: nat)              // one lock section
    | Write(r: Region, i: nat, byte: int)          // the owner uses its region
    | StartRealloc(r: Region, newsize: nat)        // Realloc's first lock section
    | TakeNew(mem: nat)                            // its second lock section
    | CopyByte                                     // one byte of the unlocked copy
    | Finish                                       // Realloc returns the new pointer

  function Content(ram: Ram, r: Region): seq<int> {
    seq(r.size, i => Byte(ram, r.addr + i))
  }

  ghost predicate Holds(s: State, t: Tid, r: Region) {
    r in s.owner && s.owner[r] == t
  }

  /** The arena operation a lock section performs, if it is one. */
  function AsOp(s: State, t: Tid, act: Act): Option<Op>
    requires t in s.phase
  {
    match act
    case Alloc(size, alignment, mem) => Some(OpAlloc(size, alignment, mem))
    case Free(r) => Some(OpFree(r))
    case Shrink(r, newsize) => Some(OpShrink(r, newsize))
    case TakeNew(mem) =>
      if s.phase[t].Missed? then Some(OpAlloc(s.phase[t].newsize, 1, mem)) else None
    case _ => None
  }

  /** The first lock section of Realloc keeps the region where it is. */
  predicate StaysPut(a: Arena, r: Region, newsize: nat)
    requires a.lastAlloc <= a.freestart
  {
    !ReallocMoves(a, r, newsize)
  }

  ghost predicate Enabled(s: State, t: Tid, act: Act)
    requires Usable(s.w.a)
  {
    && t in s.phase
    && (AsOp(s, t, act).Some? ==>
          && Allowed(s.w, AsOp(s, t, act).value)
          && Apply(s.w, AsOp(s, t, act).value).Some?)
    && match act
       case Alloc(_, _, _) => s.phase[t].Idle?
       case Free(r) => s.phase[t].Idle? && Holds(s, t, r)
       case Shrink(r, _) => s.phase[t].Idle? && Holds(s, t, r)
       case Write(r, i, _) => s.phase[t].Idle? && Holds(s, t, r) && i < r.size
       case StartRealloc(r, _) => s.phase[t].Idle? && (Holds(s, t, r) || r == NULL_REGION)
       case TakeNew(_) => s.phase[t].Missed?
       case CopyByte => s.phase[t].Copying? && s.phase[t].k < s.phase[t].r.size
       case Finish => s.phase[t].Copying? && s.phase[t].k == s.phase[t].r.size
  }

  /** Regions that stay keep their owner; new ones belong to the acting thread. */
  ghost function Reown(owner: map<Region, Tid>, live: set<Region>, t: Tid): map<Region, Tid> {
    map q | q in live :: if q in owner then owner[q] else t
  }

  ghost function InWorld(s: State, t: Tid, w: World, phase: Phase): State {
    s.(w := w, owner := Reown(s.owner, w.live, t), phase := s.phase[t := phase])
  }

  function CopyNext(s: State, t: Tid): State
    requires t in s.phase && s.phase[t].Copying?
  {
    var p := s.phase[t];
    s.(ram := s.ram[p.ptr + p.k := Byte(s.ram, p.r.addr + p.k)], phase := s.phase[t := p.(k := p.k + 1)])
  }

  function WriteNext(s: State, x: int, byte: int): State {
    s.(ram := s.ram[x := byte])
  }

  ghost function Next(s: State, t: Tid, act: Act): State
    requires Usable(s.w.a) && Enabled(s, t, act)
  {
    match act
    case Alloc(_, _, _) => InWorld(s, t, Apply(s.w, AsOp(s, t, act).value).value, Idle)
    case Free(_) => InWorld(s, t, Apply(s.w, AsOp(s, t, act).value).value, Idle)
    case Shrink(_, _) => InWorld(s, t, Apply(s.w, AsOp(s, t, act).value).value, Idle)
    case Write(r, i, byte) => WriteNext(s, r.addr + i, byte)
    case StartRealloc(r, newsize) =>
      if StaysPut(s.w.a, r, newsize)
      then InWorld(s, t, Apply(s.w, OpRealloc(r, newsize, 0)).value, Idle)
      else s.(phase := s.phase[t := Missed(r, newsize, Content(s.ram, r))])
    case TakeNew(mem) =>
      var p := s.phase[t];
      var ptr := GetMemory(s.w.a, p.newsize, 1, mem).ptr;
      InWorld(s, t, Apply(s.w, OpAlloc(p.newsize, 1, mem)).value, Copying(p.r, p.newsize, p.saved, ptr, 0))
    case CopyByte => CopyNext(s, t)
    case Finish =>
      InWorld(s, t, World(s.w.a, s.w.live - {s.phase[t].r}), Idle)
  }

  // ---------------------------------------------------------------------------
  // The invariant
  // ---------------------------------------------------------------------------

  /** From addr on, memory holds the first n saved bytes. */
  ghost predicate Matches(ram: Ram, addr: nat, saved: seq<int>, n: nat)
  {
    n <= |saved| && forall j :: 0 <= j < n ==> Byte(ram, addr + j) == saved[j]
  }

  lemma MatchesContent(ram: Ram, r: Region, saved: seq<int>)
    requires |saved| == r.size
    ensures Matches(ram, r.addr, saved, r.size) <==> Content(ram, r) == saved
  {
    var c := Content(ram, r);
    assert forall j :: 0 <= j < r.size ==> c[j] == Byte(ram, r.addr + j);
  }

  ghost predicate PhaseOk(s: State, t: Tid)
    requires t in s.phase
  {
    match s.phase[t]
    case Idle => true
    case Missed(r, newsize, saved) =>
      && (Holds(s, t, r) || r == NULL_REGION)
      && r.size < newsize && |saved| == r.size
      && Matches(s.ram, r.addr, saved, r.size)
    case Copying(r, newsize, saved, ptr, k) =>
      && (Holds(s, t, r) || r == NULL_REGION)
      && r.size < newsize && |saved| == r.size
      && Holds(s, t, Region(ptr, newsize)) && k <= r.size
      && Matches(s.ram, r.addr, saved, r.size)
      && Matches(s.ram, ptr, saved, k)
  }

  ghost predicate Apart(live: set<Region>) {
    forall r, q :: r in live && q in live && r != q ==> RegionsApart(r, q)
  }

  /** Every live region has an owner, and every Realloc in progress is in order. */
  ghost predicate Book(s: State) {
    s.owner.Keys == s.w.live && forall t :: t in s.phase ==> PhaseOk(s, t)
  }

  ghost predicate SafeInv(s: State) {
    Inv(s.w) && Book(s)
  }

  lemma WriteElsewhere(ram: Ram, addr: nat, saved: seq<int>, n: nat, x: int, byte: int)
    requires Matches(ram, addr, saved, n) && !(addr <= x < addr + n)
    ensures Matches(ram[x := byte], addr, saved, n)
  {
  }

  /** A byte written inside a region of t disturbs no other thread's Realloc. */
  lemma WriteSparesOthers(s: State, t: Tid, u: Tid, q: Region, x: int, byte: int)
    requires Book(s) && Apart(s.w.live) && t != u && u in s.phase && Holds(s, t, q) && q.addr <= x < q.addr + q.size
    ensures PhaseOk(WriteNext(s, x, byte), u)
  {
    var p := s.phase[u];
    if p.Missed? || p.Copying? {
      if Holds(s, u, p.r) { assert RegionsApart(p.r, q); }
      WriteElsewhere(s.ram, p.r.addr, p.saved, p.r.size, x, byte);
    }
    if p.Copying? {
      assert RegionsApart(Region(p.ptr, p.newsize), q);
      WriteElsewhere(s.ram, p.ptr, p.saved, p.k, x, byte);
    }
  }

  /** A lock section by t that gives up only regions of t keeps the other threads' phases. */
  lemma LockSectionSparesOthers(s: State, t: Tid, u: Tid, w: World, phase: Phase, gone: Region)
    requires Book(s) && t != u && u in s.phase
    requires s.w.live - {gone} <= w.live && (gone in s.owner ==> s.owner[gone] == t)
    ensures PhaseOk(InWorld(s, t, w, phase), u)
  {
    var s' := InWorld(s, t, w, phase);
    assert forall q :: Holds(s, u, q) ==> q in w.live && Holds(s', u, q);
  }

  /** After t wrote inside its region q, every other phase is in order. */
  lemma OthersAfterWrite(s: State, t: Tid, q: Region, x: int, byte: int)
    requires Book(s) && Apart(s.w.live) && Holds(s, t, q) && q.addr <= x < q.addr + q.size
    ensures forall u :: u in s.phase && u != t ==> PhaseOk(WriteNext(s, x, byte), u)
  {
    forall u | u in s.phase && u != t ensures PhaseOk(WriteNext(s, x, byte), u) {
      WriteSparesOthers(s, t, u, q, x, byte);
    }
  }

  lemma WriteKeeps(s: State, t: Tid, r: Region, i: nat, byte: int)
    requires Book(s) && Apart(s.w.live) && t in s.phase && s.phase[t].Idle? && Holds(s, t, r) && i < r.size
    ensures Book(WriteNext(s, r.addr + i, byte))
  {
    OthersAfterWrite(s, t, r, r.addr + i, byte);
  }

  lemma OwnPhaseAfterCopy(s: State, t: Tid, x: int, byte: int)
    requires Book(s) && Apart(s.w.live)
    requires t in s.phase && s.phase[t].Copying? && s.phase[t].k < s.phase[t].r.size
    requires x == s.phase[t].ptr + s.phase[t].k && byte == Byte(s.ram, s.phase[t].r.addr + s.phase[t].k)
    ensures PhaseOk(s.(ram := s.ram[x := byte], phase := s.phase[t := s.phase[t].(k := s.phase[t].k + 1)]), t)
  {
    var p := s.phase[t];
    assert PhaseOk(s, t);
    if Holds(s, t, p.r) { assert RegionsApart(p.r, Region(p.ptr, p.newsize)); }
    WriteElsewhere(s.ram, p.r.addr, p.saved, p.r.size, x, byte);
    WriteElsewhere(s.ram, p.ptr, p.saved, p.k, x, byte);
    assert byte == p.saved[p.k];
  }

  /** A Realloc in progress looks at memory, its own regions and its own phase only. */
  lemma PhaseIsLocal(s: State, s': State, u: Tid)
    requires u in s.phase && u in s'.phase && s'.phase[u] == s.phase[u] && s'.ram == s.ram && s'.owner == s.owner
    requires PhaseOk(s, u)
    ensures PhaseOk(s', u)
  {
  }

  lemma CopyByteKeeps(s: State, t: Tid)
    requires Book(s) && Apart(s.w.live)
    requires t in s.phase && s.phase[t].Copying? && s.phase[t].k < s.phase[t].r.size
    ensures Book(CopyNext(s, t))
  {
    var p, s' := s.phase[t], CopyNext(s, t);
    assert PhaseOk(s, t);
    var x, byte := p.ptr + p.k, Byte(s.ram, p.r.addr + p.k);
    OwnPhaseAfterCopy(s, t, x, byte);
    forall u | u in s'.phase ensures PhaseOk(s', u) {
      if u != t {
        WriteSparesOthers(s, t, u, Region(p.ptr, p.newsize), x, byte);
        PhaseIsLocal(WriteNext(s, x, byte), s', u);
      }
    }
  }

  lemma WriteIsNext(s: State, t: Tid, r: Region, i: nat, byte: int)
    requires Usable(s.w.a) && Enabled(s, t, Write(r, i, byte))
    ensures Next(s, t, Write(r, i, byte)) == WriteNext(s, r.addr + i, byte)
    ensures s.phase[t].Idle? && Holds(s, t, r) && i < r.size
  {
  }

  lemma LiveIsApart(w: World)
    requires Inv(w)
    ensures Apart(w.live) && Usable(w.a)
  {
  }

  lemma WriteStep(s: State, t: Tid, r: Region, i: nat, byte: int)
    requires SafeInv(s) && Enabled(s, t, Write(r, i, byte))
    ensures SafeInv(Next(s, t, Write(r, i, byte)))
  {
    LiveIsApart(s.w);
    WriteIsNext(s, t, r, i, byte);
    WriteKeeps(s, t, r, i, byte);
  }

  lemma CopyByteStep(s: State, t: Tid)
    requires SafeInv(s) && Enabled(s, t, CopyByte)
    ensures SafeInv(Next(s, t, CopyByte))
  {
    CopyByteKeeps(s, t);
    assert Next(s, t, CopyByte) == CopyNext(s, t) && CopyNext(s, t).w == s.w;
  }

  /** Which region of the acting thread a lock section may give up. */
  function GivenUp(s: State, t: Tid, act: Act): Region
    requires t in s.phase
  {
    match act
    case Free(r) => r
    case Shrink(r, _) => r
    case StartRealloc(r, _) => r
    case Finish => if s.phase[t].Idle? then NULL_REGION else s.phase[t].r
    case _ => NULL_REGION
  }

  lemma LockSectionKeeps(s: State, t: Tid, w: World, phase: Phase, gone: Region)
    requires Book(s) && t in s.phase
    requires s.w.live - {gone} <= w.live && (gone in s.owner ==> s.owner[gone] == t)
    requires PhaseOk(InWorld(s, t, w, phase), t)
    ensures Book(InWorld(s, t, w, phase))
  {
    var s' := InWorld(s, t, w, phase);
    assert s'.owner.Keys == w.live;
    forall u | u in s'.phase ensures PhaseOk(s', u) {
      if u != t { LockSectionSparesOthers(s, t, u, w, phase, gone); }
    }
  }

  /** What an allocation leaves. */
  lemma NewRegion(w: World, size: nat, alignment: nat, mem: nat) returns (ptr: nat, w': World)
    requires Inv(w) && size > 0
    requires Allowed(w, OpAlloc(size, alignment, mem)) && Apply(w, OpAlloc(size, alignment, mem)).Some?
    ensures Apply(w, OpAlloc(size, alignment, mem)) == Some(w') && Inv(w')
    ensures ptr == GetMemory(w.a, size, alignment, mem).ptr && ptr > 0 && alignment > 0 && ptr % alignment == 0
    ensures w'.live == w.live + {Region(ptr, size)} && Region(ptr, size) !in w.live
    ensures forall q :: q in w.live ==> RegionsApart(q, Region(ptr, size))
  {
    AllocApplies(w, size, alignment, mem);
    ptr, w' := GetMemory(w.a, size, alignment, mem).ptr, Apply(w, OpAlloc(size, alignment, mem)).value;
    assert NULL_REGION !in w.live;
  }

  lemma TakeNewBook(s: State, t: Tid, w: World, ptr: nat)
    requires Book(s) && t in s.phase && s.phase[t].Missed?
    requires w.live == s.w.live + {Region(ptr, s.phase[t].newsize)} && Region(ptr, s.phase[t].newsize) !in s.w.live
    requires NULL_REGION !in s.owner
    ensures var p := s.phase[t]; Book(InWorld(s, t, w, Copying(p.r, p.newsize, p.saved, ptr, 0)))
  {
    var p := s.phase[t];
    var copying := Copying(p.r, p.newsize, p.saved, ptr, 0);
    var s' := InWorld(s, t, w, copying);
    assert PhaseOk(s, t);
    assert Holds(s', t, Region(ptr, p.newsize));
    LockSectionKeeps(s, t, w, copying, NULL_REGION);
  }

  lemma TakeNewKeeps(s: State, t: Tid, mem: nat)
    requires SafeInv(s) && Enabled(s, t, TakeNew(mem))
    ensures SafeInv(Next(s, t, TakeNew(mem)))
  {
    assert PhaseOk(s, t);
    var ptr, w := NewRegion(s.w, s.phase[t].newsize, 1, mem);
    assert NULL_REGION !in s.owner;
    TakeNewBook(s, t, w, ptr);
  }

  lemma StartKeeps(s: State, t: Tid, r: Region, newsize: nat)
    requires SafeInv(s) && Enabled(s, t, StartRealloc(r, newsize))
    ensures SafeInv(Next(s, t, StartRealloc(r, newsize)))
  {
    var s' := Next(s, t, StartRealloc(r, newsize));
    if StaysPut(s.w.a, r, newsize) {
      OpKeepsInv(s.w, OpRealloc(r, newsize, 0));
      LockSectionKeeps(s, t, s'.w, Idle, r);
    } else {
      StartMissKeeps(s, t, r, newsize);
    }
  }

  lemma StartMissKeeps(s: State, t: Tid, r: Region, newsize: nat)
    requires Book(s) && t in s.phase && (Holds(s, t, r) || r == NULL_REGION) && r.size < newsize
    ensures Book(s.(phase := s.phase[t := Missed(r, newsize, Content(s.ram, r))]))
  {
    var s' := s.(phase := s.phase[t := Missed(r, newsize, Content(s.ram, r))]);
    MatchesContent(s.ram, r, Content(s.ram, r));
    forall u | u in s'.phase ensures PhaseOk(s', u) {
      if u != t { assert PhaseOk(s, u); }
    }
  }

  lemma StepKeepsSafe(s: State, t: Tid, act: Act)
    requires SafeInv(s) && Enabled(s, t, act)
    ensures SafeInv(Next(s, t, act))
  {
    match act
    case Write(r, i, byte) => WriteStep(s, t, r, i, byte);
    case CopyByte => CopyByteStep(s, t);
    case TakeNew(mem) => TakeNewKeeps(s, t, mem);
    case StartRealloc(r, newsize) => StartKeeps(s, t, r, newsize);
    case Finish =>
      SubsetKeeps(s.w.a, s.w.live, s.w.live - {s.phase[t].r});
      LockSectionKeeps(s, t, World(s.w.a, s.w.live - {s.phase[t].r}), Idle, s.phase[t].r);
    case _ =>
      var op := AsOp(s, t, act).value;
      OpKeepsInv(s.w, op);
      LockSectionKeeps(s, t, Apply(s.w, op).value, Idle, GivenUp(s, t, act));
  }

  // ---------------------------------------------------------------------------
  // Whole runs
  // ---------------------------------------------------------------------------

  ghost predicate IsRun(s: State, run: seq<(Tid, Act)>)
    requires SafeInv(s)
    decreases |run|
  {
    run == [] ||
    (Enabled(s, run[0].0, run[0].1)
     && (StepKeepsSafe(s, run[0].0, run[0].1); IsRun(Next(s, run[0].0, run[0].1), run[1..])))
  }

  ghost function Final(s: State, run: seq<(Tid, Act)>): (s': State)
    requires SafeInv(s) && IsRun(s, run)
    ensures SafeInv(s')
    decreases |run|
  {
    if run == [] then s
    else (StepKeepsSafe(s, run[0].0, run[0].1); Final(Next(s, run[0].0, run[0].1), run[1..]))
  }

  /** A new arena shared by threads that have not called it yet. */
  ghost function Initial(c: Config, first: Block, ram: Ram, threads: set<Tid>): (s: State)
    requires ValidConfig(c) && first.mem > 0 && Construct(c, first).Some?
    ensures SafeInv(s)
  {
    State(NewWorld(c, first), ram, map[], map t | t in threads :: Idle)
  }

  /** Thread t has not come out of Realloc during this run. */
  ghost predicate NotFinished(run: seq<(Tid, Act)>, t: Tid) {
    (t, Finish) !in run
  }

  /** Two phases of the same Realloc call. */
  predicate SameCall(p: Phase, p': Phase) {
    !p.Idle? && !p'.Idle? && p'.r == p.r && p'.saved == p.saved && p'.newsize == p.newsize
  }

  lemma StepKeepsCall(s: State, u: Tid, act: Act, t: Tid)
    requires SafeInv(s) && Enabled(s, u, act) && t in s.phase && !s.phase[t].Idle?
    requires u == t ==> !act.Finish?
    ensures t in Next(s, u, act).phase && SameCall(s.phase[t], Next(s, u, act).phase[t])
  {
  }

  /**
   While other threads act, a Realloc in progress remembers the same region and bytes, and
   the region still holds them.
   */
  lemma {:induction false} CallSurvives(s: State, run: seq<(Tid, Act)>, t: Tid)
    requires SafeInv(s) && IsRun(s, run) && t in s.phase && !s.phase[t].Idle? && NotFinished(run, t)
    ensures t in Final(s, run).phase && SameCall(s.phase[t], Final(s, run).phase[t])
    ensures var p := s.phase[t]; Matches(Final(s, run).ram, p.r.addr, p.saved, p.r.size)
    decreases |run|
  {
    if run == [] {
      assert PhaseOk(s, t);
    } else {
      var u, act := run[0].0, run[0].1;
      assert run[0] == (u, act) && run[0] in run;
      StepKeepsSafe(s, u, act);
      StepKeepsCall(s, u, act, t);
      CallSurvives(Next(s, u, act), run[1..], t);
    }
  }

  /** What Finish hands over. */
  lemma FinishDelivers(s: State, t: Tid)
    requires SafeInv(s) && Enabled(s, t, Finish)
    ensures var p, after := s.phase[t], Next(s, t, Finish);
            && SafeInv(after)
            && Holds(after, t, Region(p.ptr, p.newsize)) && p.r !in after.w.live
            && Content(after.ram, Region(p.ptr, p.r.size)) == p.saved
            && (forall q :: q in after.w.live && q != Region(p.ptr, p.newsize) ==>
                              RegionsApart(q, Region(p.ptr, p.newsize)))
  {
    StepKeepsSafe(s, t, Finish);
    assert PhaseOk(s, t);
    var p, after := s.phase[t], Next(s, t, Finish);
    MatchesContent(s.ram, Region(p.ptr, p.r.size), p.saved);
    assert after.ram == s.ram && after.w.live == s.w.live - {p.r};
  }

  /**
   Realloc is correct under every interleaving: whatever the other threads do between
   its first lock section and its return, the new region holds, in its first bytes,
   what the old region held when Realloc was called, and in the state it returns to
   all live regions of all threads are disjoint.
   */
  lemma ReallocIsAtomic(s: State, t: Tid, r: Region, newsize: nat, between: seq<(Tid, Act)>)
    requires SafeInv(s) && Enabled(s, t, StartRealloc(r, newsize)) && !StaysPut(s.w.a, r, newsize)
    requires SafeInv(Next(s, t, StartRealloc(r, newsize)))
    requires IsRun(Next(s, t, StartRealloc(r, newsize)), between) && NotFinished(between, t)
    requires Enabled(Final(Next(s, t, StartRealloc(r, newsize)), between), t, Finish)
    ensures var before := Final(Next(s, t, StartRealloc(r, newsize)), between);
            var after, ptr := Next(before, t, Finish), before.phase[t].ptr;
            && SafeInv(after)
            && Holds(after, t, Region(ptr, newsize)) && r !in after.w.live
            && Content(after.ram, Region(ptr, r.size)) == Content(s.ram, r)
            && (forall q :: q in after.w.live && q != Region(ptr, newsize) ==> RegionsApart(q, Region(ptr, newsize)))
  {
    var s1 := Next(s, t, StartRealloc(r, newsize));
    assert s1.phase[t] == Missed(r, newsize, Content(s.ram, r));
    CallSurvives(s1, between, t);
    FinishDelivers(Final(s1, between), t);
  }

  // ---------------------------------------------------------------------------
  // What every step does, in terms of regions and owners
  // ---------------------------------------------------------------------------

  /** The holdings after t's region r got another size in place; size 0 gives it up. */
  function Resized(owner: map<Region, Tid>, r: Region, newsize: nat, t: Tid): map<Region, Tid> {
    (owner - {r}) + (if newsize == 0 then map[] else map[Region(r.addr, newsize) := t])
  }

  lemma LiveRegionsDiffer(live: set<Region>, r: Region, q: Region)
    requires Apart(live) && r in live && q in live && q.addr == r.addr && q.size > 0 && r.size > 0
    ensures q == r
  {
  }

  lemma LiveIsSomewhere(w: World, r: Region)
    requires Inv(w) && r in w.live
    ensures r.size > 0 && r.addr > 0
  {
  }

  /**
   Free takes exactly that region from its owner, and gives its bytes back to the block if
   it is the last allocation; otherwise the arena is as it was.
   */
  lemma FreeEffect(s: State, t: Tid, r: Region)
    requires SafeInv(s) && Enabled(s, t, Free(r))
    ensures var s', a := Next(s, t, Free(r)), s.w.a;
            && s'.owner == s.owner - {r} && s'.w.live == s.w.live - {r} && s'.ram == s.ram && s'.phase == s.phase
            && s'.w.a == (if r.addr == a.lastAlloc then a.(freestart := r.addr, remaining := a.remaining + r.size)
                          else a)
  {
    FreeApplies(s.w, r);
    if r.addr == s.w.a.lastAlloc {
      LastAllocEndsAtBump(s.w, r);
    }
    assert Reown(s.owner, s.w.live - {r}, t) == s.owner - {r};
    SamePhase(s, t);
  }

  lemma SamePhase(s: State, t: Tid)
    requires t in s.phase && s.phase[t].Idle?
    ensures s.phase[t := Idle] == s.phase
  {
  }

  lemma NewOwner(owner: map<Region, Tid>, live: set<Region>, q: Region, t: Tid)
    requires owner.Keys == live && q !in live
    ensures Reown(owner, live + {q}, t) == owner[q := t]
  {
  }

  /** Alloc gives the caller exactly one more region, of that size, aligned, and apart from all others. */
  lemma AllocEffect(s: State, t: Tid, size: nat, alignment: nat, mem: nat) returns (ptr: nat)
    requires SafeInv(s) && Enabled(s, t, Alloc(size, alignment, mem)) && size > 0
    ensures var s' := Next(s, t, Alloc(size, alignment, mem));
            && s'.owner == s.owner[Region(ptr, size) := t] && Region(ptr, size) !in s.owner
            && alignment > 0 && ptr > 0 && ptr % alignment == 0
            && (forall q :: q in s.owner ==> RegionsApart(q, Region(ptr, size)))
            && s'.ram == s.ram && s'.phase == s.phase
  {
    var w;
    ptr, w := NewRegion(s.w, size, alignment, mem);
    NewOwner(s.owner, s.w.live, Region(ptr, size), t);
    assert Next(s, t, Alloc(size, alignment, mem)) == InWorld(s, t, w, Idle);
    SamePhase(s, t);
  }

  /** Asking for nothing changes nothing. */
  lemma AllocNothing(s: State, t: Tid, alignment: nat, mem: nat)
    requires SafeInv(s) && Enabled(s, t, Alloc(0, alignment, mem))
    ensures Next(s, t, Alloc(0, alignment, mem)) == s
  {
    GetMemoryGrants(s.w, 0, alignment, mem);
    var s' := Next(s, t, Alloc(0, alignment, mem));
    assert NULL_REGION !in s.w.live;
    assert s'.w.live == s.w.live;
    assert s'.owner == s.owner && s'.phase == s.phase;
  }

  lemma ResizedOwner(owner: map<Region, Tid>, live: set<Region>, r: Region, newsize: nat, t: Tid)
    requires owner.Keys == live && Apart(live) && r in owner && owner[r] == t && r.size > 0
    ensures Reown(owner, Replace(live, r, r.addr, newsize), t) == Resized(owner, r, newsize, t)
  {
    var q := Region(r.addr, newsize);
    if q in live && newsize > 0 {
      LiveRegionsDiffer(live, r, q);
    }
  }

  /** A lock section that resizes r in place. */
  lemma InWorldResized(s: State, t: Tid, w: World, r: Region, newsize: nat)
    requires s.owner.Keys == s.w.live && Apart(s.w.live) && Holds(s, t, r) && r.size > 0
    requires t in s.phase && s.phase[t].Idle? && w.live == Replace(s.w.live, r, r.addr, newsize)
    ensures InWorld(s, t, w, Idle) == s.(w := w, owner := Resized(s.owner, r, newsize, t))
  {
    ResizedOwner(s.owner, s.w.live, r, newsize, t);
    SamePhase(s, t);
  }

  /** The world after Shrink. */
  function Cut(w: World, r: Region, newsize: nat): World
    requires newsize <= r.size
  {
    World(if r.addr != w.a.lastAlloc then w.a
          else w.a.(freestart := r.addr + newsize, remaining := w.a.remaining + (r.size - newsize)),
          Replace(w.live, r, r.addr, newsize))
  }

  lemma ShrinkCuts(w: World, r: Region, newsize: nat)
    requires Inv(w) && r in w.live && newsize <= r.size
    ensures Apply(w, OpShrink(r, newsize)) == Some(Cut(w, r, newsize))
  {
    LiveIsSomewhere(w, r);
    if r.addr == w.a.lastAlloc {
      LastAllocEndsAtBump(w, r);
    }
  }

  /** Shrink cuts the region where it is, or gives it up when nothing is left. */
  lemma ShrinkEffect(s: State, t: Tid, r: Region, newsize: nat)
    requires SafeInv(s) && Enabled(s, t, Shrink(r, newsize))
    ensures newsize <= r.size
    ensures var s', a := Next(s, t, Shrink(r, newsize)), s.w.a;
            && s'.owner == Resized(s.owner, r, newsize, t) && s'.ram == s.ram && s'.phase == s.phase
            && s'.w.a == (if r.addr != a.lastAlloc then a
                          else a.(freestart := r.addr + newsize, remaining := a.remaining + (r.size - newsize)))
  {
    ShrinkCuts(s.w, r, newsize);
    LiveIsSomewhere(s.w, r);
    LiveIsApart(s.w);
    InWorldResized(s, t, Cut(s.w, r, newsize), r, newsize);
  }

  /** A region stays where it is exactly if it shrinks or is the last one and its block has room. */
  lemma StaysPutExactly(s: State, t: Tid, r: Region, newsize: nat)
    requires SafeInv(s) && Enabled(s, t, StartRealloc(r, newsize))
    ensures var b := s.w.a.blocks[s.w.a.cur];
            StaysPut(s.w.a, r, newsize) <==>
              newsize <= r.size || (r != NULL_REGION && r.addr == s.w.a.lastAlloc && r.addr + newsize <= b.mem + b.size)
  {
    if r != NULL_REGION {
      ResizesInPlaceExactly(s.w, r, newsize);
    }
  }

  /** Realloc in place resizes the region; otherwise its first lock section changes nothing but where t is. */
  lemma StartReallocEffect(s: State, t: Tid, r: Region, newsize: nat)
    requires SafeInv(s) && Enabled(s, t, StartRealloc(r, newsize))
    ensures var s' := Next(s, t, StartRealloc(r, newsize));
            if !StaysPut(s.w.a, r, newsize)
            then s' == s.(phase := s.phase[t := Missed(r, newsize, Content(s.ram, r))])
            else s'.ram == s.ram && s'.phase == s.phase
                 && s'.owner == if r == NULL_REGION then s.owner else Resized(s.owner, r, newsize, t)
  {
    if StaysPut(s.w.a, r, newsize) {
      var w := Apply(s.w, OpRealloc(r, newsize, 0)).value;
      if r == NULL_REGION {
        StartNothing(s, t);
      } else {
        LiveIsSomewhere(s.w, r);
        LiveIsApart(s.w);
        InWorldResized(s, t, w, r, newsize);
      }
    }
  }

  lemma StartNothing(s: State, t: Tid)
    requires SafeInv(s) && Enabled(s, t, StartRealloc(NULL_REGION, 0)) && StaysPut(s.w.a, NULL_REGION, 0)
    ensures Next(s, t, StartRealloc(NULL_REGION, 0)) == s
  {
    assert NULL_REGION !in s.w.live;
    assert Replace(s.w.live, NULL_REGION, 0, 0) == s.w.live;
    assert Reown(s.owner, s.w.live, t) == s.owner;
    SamePhase(s, t);
  }

  /** In place, the last allocation moves the bump pointer to its new end; nothing else moves it. */
  lemma ReallocInPlaceMovesBump(s: State, t: Tid, r: Region, newsize: nat)
    requires SafeInv(s) && Enabled(s, t, StartRealloc(r, newsize)) && StaysPut(s.w.a, r, newsize)
    ensures var a, a' := s.w.a, Next(s, t, StartRealloc(r, newsize)).w.a;
            && a'.freestart + a'.remaining == a.freestart + a.remaining
            && a' == a.(freestart := a'.freestart, remaining := a'.remaining)
            && a'.freestart == if r != NULL_REGION && r.addr == a.lastAlloc then r.addr + newsize else a.freestart
  {
    if r != NULL_REGION {
      ResizesInPlaceExactly(s.w, r, newsize);
      if r.addr == s.w.a.lastAlloc {
        LastAllocEndsAtBump(s.w, r);
      }
    }
  }

  /** The second lock section of Realloc adds the new region to the caller's; the old one stays for now. */
  lemma TakeNewEffect(s: State, t: Tid, mem: nat)
    requires SafeInv(s) && Enabled(s, t, TakeNew(mem))
    ensures var p, s' := s.phase[t], Next(s, t, TakeNew(mem));
            && s'.phase[t].Copying? && SameCall(p, s'.phase[t]) && s'.phase[t].k == 0
            && var q := Region(s'.phase[t].ptr, p.newsize);
            && s'.owner == s.owner[q := t] && q !in s.owner && s'.ram == s.ram
  {
    assert PhaseOk(s, t);
    var ptr, w := NewRegion(s.w, s.phase[t].newsize, 1, mem);
    NewOwner(s.owner, s.w.live, Region(ptr, s.phase[t].newsize), t);
  }

  /** A byte is copied into the new region, and the copy has one byte less to go. */
  lemma CopyByteEffect(s: State, t: Tid)
    requires Book(s) && Usable(s.w.a) && Enabled(s, t, CopyByte)
    ensures var p, s' := s.phase[t], Next(s, t, CopyByte);
            && s'.phase == s.phase[t := p.(k := p.k + 1)] && s'.owner == s.owner && s'.w == s.w
            && |p.saved| == p.r.size && s'.ram == s.ram[p.ptr + p.k := p.saved[p.k]]
  {
    CopiesSaved(s, t);
    CopyIsNext(s, t);
  }

  lemma CopiesSaved(s: State, t: Tid)
    requires t in s.phase && PhaseOk(s, t) && s.phase[t].Copying? && s.phase[t].k < s.phase[t].r.size
    ensures var p := s.phase[t]; |p.saved| == p.r.size && Byte(s.ram, p.r.addr + p.k) == p.saved[p.k]
  {
  }

  lemma CopyIsNext(s: State, t: Tid)
    requires Usable(s.w.a) && Enabled(s, t, CopyByte)
    ensures Next(s, t, CopyByte) == CopyNext(s, t)
  {
  }

  /** Returning from Realloc gives up the old region, and touches no byte. */
  lemma FinishEffect(s: State, t: Tid)
    requires SafeInv(s) && Enabled(s, t, Finish)
    ensures var s' := Next(s, t, Finish);
            && s'.owner == s.owner - {s.phase[t].r} && s'.w.a == s.w.a && s'.ram == s.ram
            && s'.phase == s.phase[t := Idle]
  {
    var s' := Next(s, t, Finish);
    assert s'.owner == s.owner - {s.phase[t].r};
  }

  lemma ContentAfterWrite(ram: Ram, r: Region, i: nat, byte: int)
    requires i < r.size
    ensures Content(ram[r.addr + i := byte], r) == Content(ram, r)[i := byte]
  {
    var c, c' := Content(ram, r), Content(ram[r.addr + i := byte], r);
    forall j | 0 <= j < r.size ensures c'[j] == c[i := byte][j] {
      assert c[j] == Byte(ram, r.addr + j);
    }
  }

  /** Writing a byte of a region changes that byte of it. */
  lemma WriteEffect(s: State, t: Tid, r: Region, i: nat, byte: int)
    requires SafeInv(s) && Enabled(s, t, Write(r, i, byte))
    ensures var s' := Next(s, t, Write(r, i, byte));
            && Content(s'.ram, r) == Content(s.ram, r)[i := byte]
            && s'.owner == s.owner && s'.w == s.w && s'.phase == s.phase
  {
    WriteIsNext(s, t, r, i, byte);
    ContentAfterWrite(s.ram, r, i, byte);
  }

  /** The only byte a step can change, if it changes one. */
  ghost predicate MayWrite(s: State, t: Tid, act: Act, x: int)
    requires t in s.phase
  {
    match act
    case Write(r, i, _) => x == r.addr + i
    case CopyByte => s.phase[t].Copying? && x == s.phase[t].ptr + s.phase[t].k
    case _ => false
  }

  lemma StepRam(s: State, t: Tid, act: Act, x: int)
    requires Usable(s.w.a) && Enabled(s, t, act) && !MayWrite(s, t, act, x)
    ensures Byte(Next(s, t, act).ram, x) == Byte(s.ram, x)
  {
  }

  lemma WritesOwn(s: State, t: Tid, act: Act, x: int) returns (q: Region)
    requires Book(s) && Usable(s.w.a) && Enabled(s, t, act) && MayWrite(s, t, act, x)
    ensures Holds(s, t, q) && q.addr <= x < q.addr + q.size
  {
    assert PhaseOk(s, t);
    q := if act.Write? then act.r else Region(s.phase[t].ptr, s.phase[t].newsize);
  }

  lemma HoldingsSpared(s: State, t: Tid, act: Act, u: Tid, q: Region)
    requires SafeInv(s) && Enabled(s, t, act) && u != t
    ensures Holds(Next(s, t, act), u, q) <==> Holds(s, u, q)
  {
    match act
    case Alloc(size, alignment, mem) => AllocSpares(s, t, size, alignment, mem, u, q);
    case Free(r) => FreeEffect(s, t, r);
    case Shrink(r, newsize) => ShrinkSpares(s, t, r, newsize, u, q);
    case Write(r, i, byte) => WriteEffect(s, t, r, i, byte);
    case StartRealloc(r, newsize) => StartSpares(s, t, r, newsize, u, q);
    case TakeNew(mem) => TakeNewEffect(s, t, mem);
    case CopyByte => CopyByteEffect(s, t);
    case Finish => FinishSpares(s, t, u, q);
  }

  lemma FinishSpares(s: State, t: Tid, u: Tid, q: Region)
    requires SafeInv(s) && Enabled(s, t, Finish) && u != t
    ensures Holds(Next(s, t, Finish), u, q) <==> Holds(s, u, q)
  {
    assert PhaseOk(s, t) && NULL_REGION !in s.w.live;
    FinishEffect(s, t);
  }

  lemma ShrinkSpares(s: State, t: Tid, r: Region, newsize: nat, u: Tid, q: Region)
    requires SafeInv(s) && Enabled(s, t, Shrink(r, newsize)) && u != t
    ensures Holds(Next(s, t, Shrink(r, newsize)), u, q) <==> Holds(s, u, q)
  {
    ShrinkEffect(s, t, r, newsize);
    ResizedSpares(s, r, newsize, t, u, q);
  }

  lemma AllocSpares(s: State, t: Tid, size: nat, alignment: nat, mem: nat, u: Tid, q: Region)
    requires SafeInv(s) && Enabled(s, t, Alloc(size, alignment, mem)) && u != t
    ensures Holds(Next(s, t, Alloc(size, alignment, mem)), u, q) <==> Holds(s, u, q)
  {
    if size > 0 {
      var ptr := AllocEffect(s, t, size, alignment, mem);
    } else {
      AllocNothing(s, t, alignment, mem);
    }
  }

  lemma StartSpares(s: State, t: Tid, r: Region, newsize: nat, u: Tid, q: Region)
    requires SafeInv(s) && Enabled(s, t, StartRealloc(r, newsize)) && u != t
    ensures Holds(Next(s, t, StartRealloc(r, newsize)), u, q) <==> Holds(s, u, q)
  {
    StartReallocEffect(s, t, r, newsize);
    if r != NULL_REGION {
      ResizedSpares(s, r, newsize, t, u, q);
    }
  }

  lemma ResizedSpares(s: State, r: Region, newsize: nat, t: Tid, u: Tid, q: Region)
    requires SafeInv(s) && Holds(s, t, r) && u != t
    ensures Holds(s.(owner := Resized(s.owner, r, newsize, t)), u, q) <==> Holds(s, u, q)
  {
    if q in s.owner && q.addr == r.addr {
      LiveIsSomewhere(s.w, q);
      LiveIsSomewhere(s.w, r);
      LiveIsApart(s.w);
      LiveRegionsDiffer(s.w.live, r, q);
    }
  }

  lemma SameBytes(ram: Ram, ram': Ram, q: Region)
    requires forall x: int :: q.addr <= x < q.addr + q.size ==> Byte(ram', x) == Byte(ram, x)
    ensures Content(ram', q) == Content(ram, q)
  {
  }

  lemma WritesNotOthers(s: State, t: Tid, act: Act, u: Tid, q: Region, x: int)
    requires Book(s) && Apart(s.w.live) && Usable(s.w.a) && Enabled(s, t, act) && u != t
    requires Holds(s, u, q) && q.addr <= x < q.addr + q.size
    ensures !MayWrite(s, t, act, x)
  {
    if MayWrite(s, t, act, x) {
      var r := WritesOwn(s, t, act, x);
    }
  }

  lemma BytesSpared(s: State, t: Tid, act: Act, u: Tid, q: Region, x: int)
    requires Book(s) && Apart(s.w.live) && Usable(s.w.a) && Enabled(s, t, act) && u != t
    requires Holds(s, u, q) && q.addr <= x < q.addr + q.size
    ensures Byte(Next(s, t, act).ram, x) == Byte(s.ram, x)
  {
    WritesNotOthers(s, t, act, u, q, x);
    StepRam(s, t, act, x);
  }

  lemma OtherPhasesStay(s: State, t: Tid, act: Act, u: Tid)
    requires Usable(s.w.a) && Enabled(s, t, act) && u != t
    ensures u in s.phase <==> u in Next(s, t, act).phase
    ensures u in s.phase ==> Next(s, t, act).phase[u] == s.phase[u]
  {
  }

  /** No step of one thread changes what another holds, what is in it, or where it is in Realloc. */
  lemma StepSparesOthers(s: State, t: Tid, act: Act, u: Tid, q: Region)
    requires SafeInv(s) && Enabled(s, t, act) && u != t
    ensures var s' := Next(s, t, act);
            && (Holds(s', u, q) <==> Holds(s, u, q))
            && (Holds(s, u, q) ==> Content(s'.ram, q) == Content(s.ram, q))
            && (u in s.phase <==> u in s'.phase) && (u in s.phase ==> s'.phase[u] == s.phase[u])
  {
    HoldingsSpared(s, t, act, u, q);
    OtherPhasesStay(s, t, act, u);
    if Holds(s, u, q) {
      LiveIsApart(s.w);
      var ram' := Next(s, t, act).ram;
      forall x: int | q.addr <= x < q.addr + q.size ensures Byte(ram', x) == Byte(s.ram, x) {
        BytesSpared(s, t, act, u, q, x);
      }
      SameBytes(s.ram, ram', q);
    }
  }

  /** Over any run in which a thread takes no step, it keeps exactly its regions, with their bytes. */
  lemma {:induction false} RunSparesOthers(s: State, run: seq<(Tid, Act)>, u: Tid, q: Region)
    requires SafeInv(s) && IsRun(s, run) && forall i :: 0 <= i < |run| ==> run[i].0 != u
    ensures Holds(Final(s, run), u, q) <==> Holds(s, u, q)
    ensures Holds(s, u, q) ==> Content(Final(s, run).ram, q) == Content(s.ram, q)
    decreases |run|
  {
    if run != [] {
      StepKeepsSafe(s, run[0].0, run[0].1);
      StepSparesOthers(s, run[0].0, run[0].1, u, q);
      RunSparesOthers(Next(s, run[0].0, run[0].1), run[1..], u, q);
    }
  }

  /** Whatever the others are in the middle of, a thread may do anything with what it holds. */
  lemma NobodyWaitsForOthers(s: State, t: Tid, r: Region, n: nat)
    requires SafeInv(s) && t in s.phase && s.phase[t].Idle? && Holds(s, t, r)
    ensures Enabled(s, t, Free(r)) && Enabled(s, t, StartRealloc(r, n)) && Enabled(s, t, StartRealloc(NULL_REGION, n))
    ensures n <= r.size ==> Enabled(s, t, Shrink(r, n))
    ensures n < r.size ==> forall byte :: Enabled(s, t, Write(r, n, byte))
  {
    assert r in s.w.live && Usable(s.w.a);
  }

  /** It may allocate as well, exactly unless that aborts. */
  lemma AllocatesExactly(s: State, t: Tid, size: nat, alignment: nat, mem: nat)
    requires SafeInv(s) && t in s.phase && s.phase[t].Idle? && SystemPromise(s.w.a, size, alignment, mem)
    ensures Enabled(s, t, Alloc(size, alignment, mem)) <==> !GetMemoryAborts(s.w.a, size, alignment)
  {
    OpKeepsInv(s.w, OpAlloc(size, alignment, mem));
  }

  /** A Realloc that moves is never stuck: it can copy, return, or take memory unless the allocation aborts. */
  lemma ReallocGoesOn(s: State, t: Tid, mem: nat)
    requires SafeInv(s) && t in s.phase && !s.phase[t].Idle?
    requires s.phase[t].Missed? ==> SystemPromise(s.w.a, s.phase[t].newsize, 1, mem)
    ensures match s.phase[t]
            case Idle => true
            case Missed(_, newsize, _) => Enabled(s, t, TakeNew(mem)) <==> !GetMemoryAborts(s.w.a, newsize, 1)
            case Copying(r, _, _, _, k) => Enabled(s, t, if k < r.size then CopyByte else Finish)
  {
    assert PhaseOk(s, t);
    if s.phase[t].Missed? {
      OpKeepsInv(s.w, OpAlloc(s.phase[t].newsize, 1, mem));
    }
  }
}
