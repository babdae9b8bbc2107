/**
 CensusHandle: a shared, reference-counted pointer whose operations are ordered so that a
 profiling signal handler may interrupt them anywhere and still read a live entry.

 Handles, entries and threads are numbered. Every store to entry_, every Ref and every
 load, decrement and delete of Unref is a step of its own, and steps of all threads
 interleave freely. CensusHandle is thread-compatible: an operation that writes a handle
 excludes every other operation on that handle, and that is all the callers promise.
 */
module CensusHandle {
  import opened Options

  type Handle = nat
  type Entry = nat
  type Tid = nat

  /** Where a thread is inside one handle operation, with the entries it has read. */
  datatype Pc =
    | Idle
    | CopyNew(h: Handle, o: Handle, e: Option<Entry>)                            // Ref e
    | CopyStore(h: Handle, o: Handle, e: Option<Entry>)                          // store into the new handle
    | CopyStart(h: Handle, o: Handle, was: Option<Entry>, now: Option<Entry>)   // store now into h
    | CopyCount(h: Handle, o: Handle, was: Option<Entry>, now: Option<Entry>)   // Ref now
    | MoveNew(h: Handle, o: Handle, e: Option<Entry>)                            // null o
    | MoveStart(h: Handle, o: Handle, was: Option<Entry>, now: Option<Entry>)   // store now into h
    | MoveClear(h: Handle, o: Handle, was: Option<Entry>, now: Option<Entry>)   // null o
    | SwapStart(h: Handle, o: Handle, was: Option<Entry>, now: Option<Entry>)   // store now into h
    | SwapBack(h: Handle, o: Handle, was: Option<Entry>, now: Option<Entry>)    // store was into o
    | Load(entry: Entry)                     // Unref: read the count
    | Subtract(entry: Entry)                 // Unref: decrement it
    | Delete(entry: Entry, counted: bool)    // Unref: delete; counted if the decrement was skipped

  /** entry_ of every constructed handle, program points, counts, and the deletions so far. */
  datatype State = State(val: map<Handle, Option<Entry>>, pcs: map<Tid, Pc>, rc: map<Entry, int>,
                         alive: set<Entry>, log: seq<Entry>)

  const INITIAL := State(map[], map[], map[], {}, [])

  datatype Action =
    | Default(h: Handle)
    | Adopt(h: Handle, e: Entry)
    | BeginCopyNew(h: Handle, o: Handle)
    | BeginCopy(h: Handle, o: Handle)
    | BeginMoveNew(h: Handle, o: Handle)
    | BeginMove(h: Handle, o: Handle)
    | BeginSwap(h: Handle, o: Handle)
    | Destroy(h: Handle)
    | Advance

  function PcOf(s: State, t: Tid): Pc {
    if t in s.pcs then s.pcs[t] else Idle
  }

  function Rc(s: State, e: Entry): int {
    if e in s.rc then s.rc[e] else 0
  }

  function Ref(s: State, e: Option<Entry>): State {
    if e == None then s else s.(rc := s.rc[e.value := Rc(s, e.value) + 1])
  }

  function At(s: State, t: Tid, p: Pc): State {
    s.(pcs := s.pcs[t := p])
  }

  function Put(s: State, h: Handle, e: Option<Entry>): State {
    s.(val := s.val[h := e])
  }

  /** The rest of an operation whose last act is to Unref the entry it took out, if any. */
  function Unref(e: Option<Entry>): Pc {
    if e == None then Idle else Load(e.value)
  }

  // ---------------------------------------------------------------------------
  // What callers promise: no operation races with a write of the same handle
  // ---------------------------------------------------------------------------

  function Writes(p: Pc): set<Handle> {
    match p
    case CopyNew(h, _, _) => {h}
    case CopyStore(h, _, _) => {h}
    case CopyStart(h, _, _, _) => {h}
    case CopyCount(h, _, _, _) => {h}
    case MoveNew(h, o, _) => {h, o}
    case MoveStart(h, o, _, _) => {h, o}
    case MoveClear(h, o, _, _) => {h, o}
    case SwapStart(h, o, _, _) => {h, o}
    case SwapBack(h, o, _, _) => {h, o}
    case _ => {}
  }

  function Uses(p: Pc): set<Handle> {
    match p
    case CopyNew(h, o, _) => {h, o}
    case CopyStore(h, o, _) => {h, o}
    case CopyStart(h, o, _, _) => {h, o}
    case CopyCount(h, o, _, _) => {h, o}
    case _ => Writes(p)
  }

  ghost predicate Compatible(s: State, t: Tid, written: set<Handle>, read: set<Handle>) {
    forall u :: u in s.pcs && u != t ==> Writes(s.pcs[u]) !! (written + read) && Uses(s.pcs[u]) !! written
  }

  ghost predicate Enabled(s: State, t: Tid, a: Action) {
    match a
    case Advance => PcOf(s, t) != Idle
    case Default(h) => PcOf(s, t) == Idle && h !in s.val && Compatible(s, t, {h}, {})
    case Adopt(h, e) => PcOf(s, t) == Idle && h !in s.val && e !in s.rc && Compatible(s, t, {h}, {})
    case BeginCopyNew(h, o) => PcOf(s, t) == Idle && h !in s.val && o in s.val && Compatible(s, t, {h}, {o})
    case BeginCopy(h, o) => PcOf(s, t) == Idle && h in s.val && o in s.val && Compatible(s, t, {h}, {o})
    case BeginMoveNew(h, o) => PcOf(s, t) == Idle && h !in s.val && o in s.val && Compatible(s, t, {h, o}, {})
    case BeginMove(h, o) => PcOf(s, t) == Idle && h in s.val && o in s.val && Compatible(s, t, {h, o}, {})
    case BeginSwap(h, o) => PcOf(s, t) == Idle && h in s.val && o in s.val && Compatible(s, t, {h, o}, {})
    case Destroy(h) => PcOf(s, t) == Idle && h in s.val && Compatible(s, t, {h}, {})
  }

  function Begin(s: State, t: Tid, a: Action): State
    requires Enabled(s, t, a) && a != Advance
  {
    match a
    case Default(h) => Put(s, h, None)
    case Adopt(h, e) => Put(s, h, Some(e)).(rc := s.rc[e := 1], alive := s.alive + {e})
    case BeginCopyNew(h, o) => At(s, t, CopyNew(h, o, s.val[o]))
    case BeginCopy(h, o) => if s.val[h] == s.val[o] then s else At(s, t, CopyStart(h, o, s.val[h], s.val[o]))
    case BeginMoveNew(h, o) => At(Put(s, h, s.val[o]), t, MoveNew(h, o, s.val[o]))
    case BeginMove(h, o) => if h == o then s else At(s, t, MoveStart(h, o, s.val[h], s.val[o]))
    case BeginSwap(h, o) => At(s, t, SwapStart(h, o, s.val[h], s.val[o]))
    case Destroy(h) => At(s.(val := s.val - {h}), t, Unref(s.val[h]))
  }

  function Continue(s: State, t: Tid, p: Pc): State
    requires p != Idle
  {
    match p
    case CopyNew(h, o, e) => At(Ref(s, e), t, CopyStore(h, o, e))
    case CopyStore(h, o, e) => At(Put(s, h, e), t, Idle)
    case CopyStart(h, o, was, now) => At(Put(s, h, now), t, CopyCount(h, o, was, now))
    case CopyCount(h, o, was, now) => At(Ref(s, now), t, Unref(was))
    case MoveNew(h, o, e) => At(Put(s, o, None), t, Idle)
    case MoveStart(h, o, was, now) => At(Put(s, h, now), t, MoveClear(h, o, was, now))
    case MoveClear(h, o, was, now) => At(Put(s, o, None), t, Unref(was))
    case SwapStart(h, o, was, now) => At(Put(s, h, now), t, SwapBack(h, o, was, now))
    case SwapBack(h, o, was, now) => At(Put(s, o, was), t, Idle)
    case Load(e) => At(s, t, if Rc(s, e) == 1 then Delete(e, true) else Subtract(e))
    case Subtract(e) =>
      At(s.(rc := s.rc[e := Rc(s, e) - 1]), t, if Rc(s, e) == 1 then Delete(e, false) else Idle)
    case Delete(e, _) => At(s.(alive := s.alive - {e}, log := s.log + [e]), t, Idle)
  }

  function Next(s: State, t: Tid, a: Action): State
    requires Enabled(s, t, a)
  {
    if a == Advance then Continue(s, t, PcOf(s, t)) else Begin(s, t, a)
  }

  // ---------------------------------------------------------------------------
  // Counting
  // ---------------------------------------------------------------------------

  function Keys(m: map<nat, Option<Entry>>, e: Entry): set<nat> {
    set k | k in m && m[k] == Some(e)
  }

  /** How many keys of a map lead to an entry. */
  function Tally(m: map<nat, Option<Entry>>, e: Entry): nat {
    |Keys(m, e)|
  }

  /** The reference an operation in progress holds outside of any handle. */
  function Credit(p: Pc): Option<Entry> {
    match p
    case CopyStore(_, _, e) => e
    case CopyCount(_, _, was, _) => was
    case MoveClear(_, _, was, _) => was
    case SwapBack(h, o, was, _) => if h == o then None else was
    case Load(e) => Some(e)
    case Subtract(e) => Some(e)
    case Delete(e, counted) => if counted then Some(e) else None
    case _ => None
  }

  /** The entry an operation in progress has stored into h while another handle still has it. */
  function Debit(p: Pc): Option<Entry> {
    match p
    case CopyCount(_, _, _, now) => now
    case MoveNew(_, _, e) => e
    case MoveClear(_, _, _, now) => now
    case SwapBack(h, o, _, now) => if h == o then None else now
    case _ => None
  }

  function Credits(pcs: map<Tid, Pc>): map<Tid, Option<Entry>> {
    map t | t in pcs :: Credit(pcs[t])
  }

  function Debits(pcs: map<Tid, Pc>): map<Tid, Option<Entry>> {
    map t | t in pcs :: Debit(pcs[t])
  }

  /** References to an entry: in handles and in operations, handles not yet counted left out. */
  function References(s: State, e: Entry): int {
    Tally(s.val, e) + Tally(Credits(s.pcs), e) - Tally(Debits(s.pcs), e)
  }

  function One(c: bool): int {
    if c then 1 else 0
  }

  lemma TallyPut(m: map<nat, Option<Entry>>, k: nat, v: Option<Entry>, e: Entry)
    ensures Tally(m[k := v], e) == Tally(m, e) - One(k in m && m[k] == Some(e)) + One(v == Some(e))
  {
    assert k in Keys(m, e) <==> k in m && m[k] == Some(e);
    if v == Some(e) {
      assert Keys(m[k := v], e) == Keys(m, e) + {k};
    } else {
      assert Keys(m[k := v], e) == Keys(m, e) - {k};
    }
  }

  lemma TallyDrop(m: map<nat, Option<Entry>>, k: nat, e: Entry)
    requires k in m
    ensures Tally(m - {k}, e) == Tally(m, e) - One(m[k] == Some(e))
  {
    assert Keys(m - {k}, e) == Keys(m, e) - {k};
  }

  lemma TallyOne(m: map<nat, Option<Entry>>, k: nat, e: Entry)
    requires k in m && m[k] == Some(e)
    ensures Tally(m, e) >= 1
    ensures Tally(m, e) == 1 ==> Keys(m, e) == {k}
  {
    assert k in Keys(m, e);
    assert Keys(m, e) == (Keys(m, e) - {k}) + {k};
  }

  lemma OpMoves(s: State, t: Tid, p: Pc, e: Entry)
    ensures Tally(Credits(s.pcs[t := p]), e)
            == Tally(Credits(s.pcs), e) - One(Credit(PcOf(s, t)) == Some(e)) + One(Credit(p) == Some(e))
    ensures Tally(Debits(s.pcs[t := p]), e)
            == Tally(Debits(s.pcs), e) - One(Debit(PcOf(s, t)) == Some(e)) + One(Debit(p) == Some(e))
  {
    assert Credits(s.pcs[t := p]) == Credits(s.pcs)[t := Credit(p)];
    assert Debits(s.pcs[t := p]) == Debits(s.pcs)[t := Debit(p)];
    TallyPut(Credits(s.pcs), t, Credit(p), e);
    TallyPut(Debits(s.pcs), t, Debit(p), e);
  }

  // ---------------------------------------------------------------------------
  // The invariant
  // ---------------------------------------------------------------------------

  ghost predicate Holds(s: State, h: Handle, e: Option<Entry>) {
    h in s.val && s.val[h] == e
  }

  /** What an operation in progress has read is still there. */
  ghost predicate PcOk(s: State, p: Pc) {
    match p
    case CopyNew(h, o, e) => h !in s.val && Holds(s, o, e)
    case CopyStore(h, o, e) => h !in s.val && Holds(s, o, e)
    case CopyStart(h, o, was, now) => Holds(s, h, was) && Holds(s, o, now) && was != now
    case CopyCount(h, o, was, now) => Holds(s, h, now) && Holds(s, o, now) && h != o
    case MoveNew(h, o, e) => Holds(s, h, e) && Holds(s, o, e) && h != o
    case MoveStart(h, o, was, now) => Holds(s, h, was) && Holds(s, o, now) && h != o
    case MoveClear(h, o, was, now) => Holds(s, h, now) && Holds(s, o, now) && h != o
    case SwapStart(h, o, was, now) => Holds(s, h, was) && Holds(s, o, now)
    case SwapBack(h, o, was, now) => Holds(s, h, now) && Holds(s, o, now) && (h == o ==> was == now)
    case _ => true
  }

  ghost predicate OpsOk(s: State) {
    && (forall t :: t in s.pcs ==> PcOk(s, s.pcs[t]))
    && (forall t, u :: t in s.pcs && u in s.pcs && t != u ==> Writes(s.pcs[t]) !! Uses(s.pcs[u]))
  }

  ghost predicate Deleting(s: State, t: Tid, e: Entry) {
    t in s.pcs && s.pcs[t].Delete? && s.pcs[t].entry == e
  }

  /** The count is the number of references, and nothing refers to a deleted entry. */
  ghost predicate EntryOk(s: State, e: Entry) {
    && (e in s.alive ==> Rc(s, e) == References(s, e))
    && (e in s.alive && References(s, e) == 0 ==> exists t :: Deleting(s, t, e))
    && (e !in s.alive ==> References(s, e) == 0)
  }

  /** A deletion under way is the only one, and nothing else refers to its entry. */
  ghost predicate DeletionOk(s: State, t: Tid, e: Entry) {
    Deleting(s, t, e) ==>
      && e in s.alive && References(s, e) == One(s.pcs[t].counted)
      && forall u :: u != t ==> !Deleting(s, u, e)
  }

  ghost predicate LogOk(s: State) {
    && (forall i, j :: 0 <= i < j < |s.log| ==> s.log[i] != s.log[j])
    && (forall e :: e in s.rc <==> e in s.alive || e in s.log)
    && (forall e :: e in s.log ==> e !in s.alive)
  }

  ghost predicate Inv(s: State) {
    && OpsOk(s) && LogOk(s)
    && (forall e :: EntryOk(s, e))
    && (forall t, e :: DeletionOk(s, t, e))
  }

  // ---------------------------------------------------------------------------
  // Uncounted handles are covered by counted ones
  // ---------------------------------------------------------------------------

  /** The handle a debited operation stored into. */
  function Target(p: Pc): Handle {
    match p
    case CopyCount(h, _, _, _) => h
    case MoveNew(h, _, _) => h
    case MoveClear(h, _, _, _) => h
    case SwapBack(h, _, _, _) => h
    case _ => 0
  }

  lemma {:induction false} NoMoreThanTargets(s: State, ts: set<Tid>, hs: set<Handle>)
    requires OpsOk(s)
    requires forall t :: t in ts ==> t in s.pcs && Debit(s.pcs[t]) != None && Target(s.pcs[t]) in hs
    ensures |ts| <= |hs|
  {
    if ts != {} {
      var t :| t in ts;
      var h := Target(s.pcs[t]);
      forall u | u in ts - {t} ensures Target(s.pcs[u]) in hs - {h} {
        assert Target(s.pcs[u]) in Uses(s.pcs[u]) && h in Writes(s.pcs[t]);
      }
      NoMoreThanTargets(s, ts - {t}, hs - {h});
    }
  }

  /** An entry with uncounted handles has more handles than those. */
  lemma DebitsAreCovered(s: State, e: Entry)
    requires OpsOk(s)
    ensures Tally(Debits(s.pcs), e) <= Tally(s.val, e)
    ensures Tally(Debits(s.pcs), e) > 0 ==> Tally(Debits(s.pcs), e) < Tally(s.val, e)
  {
    var ts, hs := Keys(Debits(s.pcs), e), Keys(s.val, e);
    if ts != {} {
      var t :| t in ts;
      var o := s.pcs[t].o;
      assert o in hs;
      forall u | u in ts ensures Target(s.pcs[u]) in hs - {o} {
        assert u != t ==> Writes(s.pcs[u]) !! Uses(s.pcs[t]);
      }
      NoMoreThanTargets(s, ts, hs - {o});
    }
  }

  /** One reference left, and an operation holds it: then no handle has the entry. */
  lemma LastReference(s: State, t: Tid, e: Entry)
    requires OpsOk(s) && t in s.pcs && Credit(s.pcs[t]) == Some(e) && References(s, e) == 1
    ensures Keys(s.val, e) == {} && Keys(Credits(s.pcs), e) == {t} && Tally(Debits(s.pcs), e) == 0
  {
    DebitsAreCovered(s, e);
    TallyOne(Credits(s.pcs), t, e);
  }

  // ---------------------------------------------------------------------------
  // Operations in progress stay undisturbed
  // ---------------------------------------------------------------------------

  function WrittenBy(s: State, t: Tid, a: Action): set<Handle> {
    match a
    case Advance => Writes(PcOf(s, t))
    case BeginMoveNew(h, o) => {h, o}
    case BeginMove(h, o) => {h, o}
    case BeginSwap(h, o) => {h, o}
    case _ => {a.h}
  }

  function UsedBy(s: State, t: Tid, a: Action): set<Handle> {
    match a
    case Advance => Uses(PcOf(s, t))
    case BeginCopyNew(h, o) => {h, o}
    case BeginCopy(h, o) => {h, o}
    case _ => WrittenBy(s, t, a)
  }

  lemma StepFrame(s: State, t: Tid, a: Action, h: Handle)
    requires Enabled(s, t, a) && h !in WrittenBy(s, t, a)
    ensures h in Next(s, t, a).val <==> h in s.val
    ensures h in s.val ==> Next(s, t, a).val[h] == s.val[h]
  {
  }

  lemma StepClaims(s: State, t: Tid, a: Action, u: Tid)
    requires OpsOk(s) && Enabled(s, t, a) && u in s.pcs && u != t
    ensures WrittenBy(s, t, a) !! Uses(s.pcs[u]) && UsedBy(s, t, a) !! Writes(s.pcs[u])
  {
  }

  lemma OthersStay(s: State, t: Tid, a: Action)
    requires Enabled(s, t, a)
    ensures forall u :: u != t ==> (u in Next(s, t, a).pcs <==> u in s.pcs)
    ensures forall u :: u != t && u in s.pcs ==> Next(s, t, a).pcs[u] == s.pcs[u]
  {
  }

  lemma BeginsOk(s: State, t: Tid, a: Action)
    requires Enabled(s, t, a) && a != Advance
    ensures Writes(PcOf(Begin(s, t, a), t)) <= WrittenBy(s, t, a) && Uses(PcOf(Begin(s, t, a), t)) <= UsedBy(s, t, a)
    ensures PcOk(Begin(s, t, a), PcOf(Begin(s, t, a), t))
  {
  }

  lemma ContinuesOk(s: State, t: Tid, p: Pc)
    requires p != Idle && PcOf(s, t) == p && PcOk(s, p)
    ensures Writes(PcOf(Continue(s, t, p), t)) <= Writes(p) && Uses(PcOf(Continue(s, t, p), t)) <= Uses(p)
    ensures PcOk(Continue(s, t, p), PcOf(Continue(s, t, p), t))
  {
  }

  lemma NextPc(s: State, t: Tid, a: Action)
    requires Enabled(s, t, a) && PcOk(s, PcOf(s, t))
    ensures Writes(PcOf(Next(s, t, a), t)) <= WrittenBy(s, t, a)
    ensures Uses(PcOf(Next(s, t, a), t)) <= UsedBy(s, t, a)
    ensures PcOk(Next(s, t, a), PcOf(Next(s, t, a), t))
  {
    if a == Advance {
      ContinuesOk(s, t, PcOf(s, t));
    } else {
      BeginsOk(s, t, a);
    }
  }

  lemma PcUndisturbed(s: State, s': State, p: Pc)
    requires PcOk(s, p)
    requires forall h :: h in Uses(p) ==> (h in s'.val <==> h in s.val) && (h in s.val ==> s'.val[h] == s.val[h])
    ensures PcOk(s', p)
  {
  }

  lemma OpsKept(s: State, t: Tid, a: Action)
    requires OpsOk(s) && Enabled(s, t, a)
    ensures OpsOk(Next(s, t, a))
  {
    var s' := Next(s, t, a);
    NextPc(s, t, a);
    OthersStay(s, t, a);
    forall u | u in s'.pcs && u != t
      ensures PcOk(s', s'.pcs[u])
      ensures t in s'.pcs ==> Writes(s'.pcs[t]) !! Uses(s'.pcs[u]) && Writes(s'.pcs[u]) !! Uses(s'.pcs[t])
    {
      StepClaims(s, t, a, u);
      forall h | h in Uses(s.pcs[u])
        ensures (h in s'.val <==> h in s.val) && (h in s.val ==> s'.val[h] == s.val[h])
      {
        StepFrame(s, t, a, h);
      }
      PcUndisturbed(s, s', s.pcs[u]);
    }
  }

  // ---------------------------------------------------------------------------
  // Every step keeps the counts
  // ---------------------------------------------------------------------------

  /** How a step changes the number of references to an entry. */
  function Gain(s: State, t: Tid, a: Action, e: Entry): int {
    match a
    case Adopt(_, e') => One(e == e')
    case Advance => (
      match PcOf(s, t)
      case CopyNew(_, _, e') => One(e' == Some(e))
      case CopyCount(_, _, _, now) => One(now == Some(e))
      case Subtract(e') => -One(e == e')
      case Delete(e', counted) => -One(e == e' && counted)
      case _ => 0)
    case _ => 0
  }

  /** What a store and a change of program point do to the references. */
  lemma StoreGains(s: State, s': State, t: Tid, p: Pc, h: Handle, x: Option<Entry>, e: Entry)
    requires s'.val == s.val[h := x] && s'.pcs == s.pcs[t := p]
    ensures References(s', e) == References(s, e)
              - One(Holds(s, h, Some(e))) + One(x == Some(e))
              - One(Credit(PcOf(s, t)) == Some(e)) + One(Credit(p) == Some(e))
              + One(Debit(PcOf(s, t)) == Some(e)) - One(Debit(p) == Some(e))
  {
    TallyPut(s.val, h, x, e);
    OpMoves(s, t, p, e);
  }

  lemma OpGains(s: State, s': State, t: Tid, p: Pc, e: Entry)
    requires s'.val == s.val && s'.pcs == s.pcs[t := p]
    ensures References(s', e) == References(s, e)
              - One(Credit(PcOf(s, t)) == Some(e)) + One(Credit(p) == Some(e))
              + One(Debit(PcOf(s, t)) == Some(e)) - One(Debit(p) == Some(e))
  {
    OpMoves(s, t, p, e);
  }

  lemma NewHandleGains(s: State, t: Tid, a: Action, e: Entry)
    requires Enabled(s, t, a) && (a.Default? || a.Adopt? || a.Destroy?)
    ensures References(Begin(s, t, a), e) == References(s, e) + Gain(s, t, a, e)
  {
    match a
    case Default(h) => TallyPut(s.val, h, None, e);
    case Adopt(h, e') => TallyPut(s.val, h, Some(e'), e);
    case Destroy(h) =>
      TallyDrop(s.val, h, e);
      OpMoves(s, t, Unref(s.val[h]), e);
  }

  lemma BeginAssignGains(s: State, t: Tid, a: Action, e: Entry)
    requires Enabled(s, t, a) && (a.BeginCopyNew? || a.BeginCopy? || a.BeginMove? || a.BeginSwap?)
    ensures References(Begin(s, t, a), e) == References(s, e)
  {
    var s' := Begin(s, t, a);
    if s' != s {
      OpGains(s, s', t, PcOf(s', t), e);
    }
  }

  lemma BeginMoveNewGains(s: State, t: Tid, a: Action, e: Entry)
    requires Enabled(s, t, a) && a.BeginMoveNew?
    ensures References(Begin(s, t, a), e) == References(s, e)
  {
    StoreGains(s, Begin(s, t, a), t, MoveNew(a.h, a.o, s.val[a.o]), a.h, s.val[a.o], e);
  }

  lemma BeginGains(s: State, t: Tid, a: Action, e: Entry)
    requires Enabled(s, t, a) && a != Advance
    ensures References(Begin(s, t, a), e) == References(s, e) + Gain(s, t, a, e)
  {
    if a.Default? || a.Adopt? || a.Destroy? {
      NewHandleGains(s, t, a, e);
    } else if a.BeginMoveNew? {
      BeginMoveNewGains(s, t, a, e);
    } else {
      BeginAssignGains(s, t, a, e);
    }
  }

  lemma CopyGains(s: State, t: Tid, p: Pc, e: Entry)
    requires PcOk(s, p) && PcOf(s, t) == p
    requires p.CopyNew? || p.CopyStore? || p.CopyStart? || p.CopyCount?
    ensures References(Continue(s, t, p), e) == References(s, e) + Gain(s, t, Advance, e)
  {
    var s' := Continue(s, t, p);
    match p
    case CopyNew(h, o, e') => OpGains(s, s', t, CopyStore(h, o, e'), e);
    case CopyStore(h, o, e') => StoreGains(s, s', t, Idle, h, e', e);
    case CopyStart(h, o, was, now) => StoreGains(s, s', t, CopyCount(h, o, was, now), h, now, e);
    case CopyCount(h, o, was, now) => OpGains(s, s', t, Unref(was), e);
  }

  lemma MoveGains(s: State, t: Tid, p: Pc, e: Entry)
    requires PcOk(s, p) && PcOf(s, t) == p && (p.MoveNew? || p.MoveStart? || p.MoveClear?)
    ensures References(Continue(s, t, p), e) == References(s, e)
  {
    var s' := Continue(s, t, p);
    match p
    case MoveNew(h, o, e') => StoreGains(s, s', t, Idle, o, None, e);
    case MoveStart(h, o, was, now) => StoreGains(s, s', t, MoveClear(h, o, was, now), h, now, e);
    case MoveClear(h, o, was, now) => StoreGains(s, s', t, Unref(was), o, None, e);
  }

  lemma SwapGains(s: State, t: Tid, p: Pc, e: Entry)
    requires PcOk(s, p) && PcOf(s, t) == p && (p.SwapStart? || p.SwapBack?)
    ensures References(Continue(s, t, p), e) == References(s, e)
  {
    var s' := Continue(s, t, p);
    match p
    case SwapStart(h, o, was, now) => StoreGains(s, s', t, SwapBack(h, o, was, now), h, now, e);
    case SwapBack(h, o, was, now) => StoreGains(s, s', t, Idle, o, was, e);
  }

  lemma UnrefGains(s: State, t: Tid, p: Pc, e: Entry)
    requires PcOf(s, t) == p && (p.Load? || p.Subtract? || p.Delete?)
    ensures References(Continue(s, t, p), e) == References(s, e) + Gain(s, t, Advance, e)
  {
    OpGains(s, Continue(s, t, p), t, PcOf(Continue(s, t, p), t), e);
  }

  lemma StepGains(s: State, t: Tid, a: Action, e: Entry)
    requires OpsOk(s) && Enabled(s, t, a)
    ensures References(Next(s, t, a), e) == References(s, e) + Gain(s, t, a, e)
  {
    var p := PcOf(s, t);
    if a != Advance {
      BeginGains(s, t, a, e);
    } else if p.CopyNew? || p.CopyStore? || p.CopyStart? || p.CopyCount? {
      CopyGains(s, t, p, e);
    } else if p.Load? || p.Subtract? || p.Delete? {
      UnrefGains(s, t, p, e);
    } else if p.SwapStart? || p.SwapBack? {
      SwapGains(s, t, p, e);
    } else {
      MoveGains(s, t, p, e);
    }
  }

  /** No references means none anywhere: uncounted handles never hide one. */
  lemma NoneLeft(s: State, e: Entry)
    requires OpsOk(s)
    ensures References(s, e) >= 0
    ensures References(s, e) == 0 ==> Keys(s.val, e) == {} && Keys(Credits(s.pcs), e) == {}
  {
    DebitsAreCovered(s, e);
  }

  lemma NoKeysNoHolders(s: State, t: Tid, e: Entry)
    requires Keys(s.val, e) == {} && Keys(Credits(s.pcs), e) <= {t}
    ensures forall h :: !Holds(s, h, Some(e))
    ensures forall u :: u != t ==> Credit(PcOf(s, u)) != Some(e)
  {
    forall h ensures !Holds(s, h, Some(e)) {
      assert h !in Keys(s.val, e);
    }
    forall u | u != t ensures Credit(PcOf(s, u)) != Some(e) {
      assert u !in Keys(Credits(s.pcs), e);
    }
  }

  lemma NobodyElseHas(s: State, t: Tid, e: Entry)
    requires OpsOk(s) && Deleting(s, t, e) && References(s, e) == One(s.pcs[t].counted)
    ensures Keys(s.val, e) == {} && Keys(Credits(s.pcs), e) <= {t}
  {
    if s.pcs[t].counted {
      LastReference(s, t, e);
    } else {
      NoneLeft(s, e);
    }
  }

  /** An entry being deleted is out of everybody else's reach. */
  lemma OutOfReach(s: State, t: Tid, e: Entry)
    requires OpsOk(s) && DeletionOk(s, t, e) && Deleting(s, t, e)
    ensures forall h :: !Holds(s, h, Some(e))
    ensures forall u :: u != t ==> Credit(PcOf(s, u)) != Some(e)
  {
    NobodyElseHas(s, t, e);
    NoKeysNoHolders(s, t, e);
  }

  /** The entry whose count or memory the next step of an operation touches. */
  function Touched(p: Pc): Option<Entry> {
    match p
    case CopyNew(_, _, e) => e
    case CopyCount(_, _, _, now) => now
    case Load(e) => Some(e)
    case Subtract(e) => Some(e)
    case Delete(e, _) => Some(e)
    case _ => None
  }

  /** No step touches a deleted entry. */
  lemma TouchesAlive(s: State, t: Tid, e: Entry)
    requires Inv(s) && Touched(PcOf(s, t)) == Some(e)
    ensures e in s.alive && Rc(s, e) == References(s, e)
  {
    var p := s.pcs[t];
    assert EntryOk(s, e) && DeletionOk(s, t, e);
    if !p.Delete? {
      NoneLeft(s, e);
      if p.CopyNew? || p.CopyCount? {
        assert p.o in Keys(s.val, e);
      } else {
        assert t in Keys(Credits(s.pcs), e);
      }
    }
  }

  /** If n is the number of references before a step, the counts agree after it too. */
  lemma CountFollows(s: State, t: Tid, a: Action, e: Entry, n: int)
    requires Enabled(s, t, a)
    requires if e in s.alive then Rc(s, e) == n else n == 0
    requires a == Advance && Touched(PcOf(s, t)) == Some(e) ==> e in s.alive
    requires a == Advance && Deleting(s, t, e) ==> n == One(s.pcs[t].counted)
    requires a.Adopt? ==> a.e !in s.alive
    ensures if e in Next(s, t, a).alive then Rc(Next(s, t, a), e) == n + Gain(s, t, a, e)
            else n + Gain(s, t, a, e) == 0
  {
    if a == Advance {
      match PcOf(s, t)
      case CopyNew(_, _, _) =>
      case CopyCount(_, _, _, _) =>
      case Subtract(_) =>
      case Delete(_, _) =>
      case _ =>
    }
  }

  lemma BeforeStep(s: State, t: Tid, a: Action, e: Entry)
    requires Inv(s) && Enabled(s, t, a)
    ensures if e in s.alive then Rc(s, e) == References(s, e) else References(s, e) == 0
    ensures a == Advance && Touched(PcOf(s, t)) == Some(e) ==> e in s.alive
    ensures a == Advance && Deleting(s, t, e) ==> References(s, e) == One(s.pcs[t].counted)
    ensures a.Adopt? ==> a.e !in s.alive
  {
    assert EntryOk(s, e) && DeletionOk(s, t, e);
    if a == Advance && Touched(PcOf(s, t)) == Some(e) {
      TouchesAlive(s, t, e);
    }
  }

  lemma CountKept(s: State, t: Tid, a: Action, e: Entry)
    requires Inv(s) && Enabled(s, t, a)
    ensures var s' := Next(s, t, a);
            if e in s'.alive then Rc(s', e) == References(s', e) else References(s', e) == 0
  {
    BeforeStep(s, t, a, e);
    CountFollows(s, t, a, e, References(s, e));
    StepGains(s, t, a, e);
  }

  lemma BornOrAlive(s: State, t: Tid, a: Action, e: Entry)
    requires Enabled(s, t, a) && e in Next(s, t, a).alive
    ensures e in s.alive || Gain(s, t, a, e) == 1
  {
  }

  /** A decrement that leaves nothing is followed by the deletion. */
  lemma StartsDeleting(s: State, t: Tid, a: Action, e: Entry)
    requires Enabled(s, t, a) && Gain(s, t, a, e) < 0 && e in Next(s, t, a).alive && Rc(s, e) == 1
    ensures Deleting(Next(s, t, a), t, e)
  {
  }

  lemma KeepsDeleting(s: State, t: Tid, a: Action, u: Tid, e: Entry)
    requires Enabled(s, t, a) && Deleting(s, u, e) && e in Next(s, t, a).alive
    ensures Deleting(Next(s, t, a), u, e)
  {
    OthersStay(s, t, a);
  }

  lemma StillDeleting(s: State, t: Tid, a: Action, e: Entry)
    requires Inv(s) && Enabled(s, t, a)
    requires e in Next(s, t, a).alive && References(Next(s, t, a), e) == 0
    ensures exists u :: Deleting(Next(s, t, a), u, e)
  {
    assert EntryOk(s, e);
    StepGains(s, t, a, e);
    NoneLeft(s, e);
    BornOrAlive(s, t, a, e);
    if Gain(s, t, a, e) < 0 {
      GainIsSmall(s, t, a, e);
      StartsDeleting(s, t, a, e);
    } else {
      var u :| Deleting(s, u, e);
      KeepsDeleting(s, t, a, u, e);
    }
  }

  lemma GainIsSmall(s: State, t: Tid, a: Action, e: Entry)
    ensures -1 <= Gain(s, t, a, e) <= 1
  {
  }

  lemma UntouchedStays(s: State, t: Tid, a: Action, e: Entry)
    requires Enabled(s, t, a) && e in s.alive && e in s.rc && Touched(PcOf(s, t)) != Some(e)
    ensures Gain(s, t, a, e) == 0 && !Deleting(Next(s, t, a), t, e) && e in Next(s, t, a).alive
  {
  }

  lemma OthersDoNotTouch(s: State, t: Tid, u: Tid, e: Entry)
    requires OpsOk(s) && DeletionOk(s, t, e) && Deleting(s, t, e) && u != t
    ensures Touched(PcOf(s, u)) != Some(e)
  {
    OutOfReach(s, t, e);
    assert !Deleting(s, u, e);
    var p := PcOf(s, u);
    if p.CopyNew? || p.CopyCount? {
      assert !Holds(s, p.o, Some(e));
    }
  }

  /** Nobody else can change the references of an entry being deleted, or start deleting it. */
  lemma OthersKeepOut(s: State, t: Tid, a: Action, u: Tid, e: Entry)
    requires Inv(s) && Enabled(s, t, a) && u != t && Deleting(s, u, e)
    ensures Gain(s, t, a, e) == 0 && !Deleting(Next(s, t, a), t, e) && e in Next(s, t, a).alive
  {
    assert DeletionOk(s, u, e);
    OthersDoNotTouch(s, u, t, e);
    UntouchedStays(s, t, a, e);
  }

  /** A deletion begins by reading or leaving a count of one: nobody else is deleting. */
  lemma DeletionBegins(s: State, t: Tid, a: Action, e: Entry)
    requires Inv(s) && Enabled(s, t, a) && Deleting(Next(s, t, a), t, e)
    ensures e in s.alive && e in Next(s, t, a).alive
    ensures References(s, e) + Gain(s, t, a, e) == One(Next(s, t, a).pcs[t].counted)
    ensures forall u :: u != t ==> !Deleting(s, u, e)
  {
    var p := PcOf(s, t);
    assert a == Advance && (p == Load(e) || p == Subtract(e));
    TouchesAlive(s, t, e);
    forall u | u != t ensures !Deleting(s, u, e) {
      if Deleting(s, u, e) {
        assert DeletionOk(s, u, e);
        OutOfReach(s, u, e);
      }
    }
  }

  lemma DeletionKept(s: State, t: Tid, a: Action, u: Tid, e: Entry)
    requires Inv(s) && Enabled(s, t, a)
    ensures DeletionOk(Next(s, t, a), u, e)
  {
    var s' := Next(s, t, a);
    OthersStay(s, t, a);
    StepGains(s, t, a, e);
    if Deleting(s', u, e) {
      if u == t {
        DeletionBegins(s, t, a, e);
        assert forall v :: v != t ==> (Deleting(s', v, e) <==> Deleting(s, v, e));
      } else {
        OthersKeepOut(s, t, a, u, e);
        assert DeletionOk(s, u, e);
        assert forall v :: v != t ==> (Deleting(s', v, e) <==> Deleting(s, v, e));
      }
    }
  }

  lemma LogFollows(s: State, t: Tid, a: Action)
    requires LogOk(s) && Enabled(s, t, a)
    requires forall e :: Touched(PcOf(s, t)) == Some(e) ==> e in s.alive
    ensures LogOk(Next(s, t, a))
  {
    var s' := Next(s, t, a);
    if a == Advance && PcOf(s, t).Delete? {
      assert s'.log == s.log + [PcOf(s, t).entry];
    } else {
      assert s'.log == s.log;
    }
  }

  lemma LogKept(s: State, t: Tid, a: Action)
    requires Inv(s) && Enabled(s, t, a)
    ensures LogOk(Next(s, t, a))
  {
    forall e | Touched(PcOf(s, t)) == Some(e) ensures e in s.alive {
      TouchesAlive(s, t, e);
    }
    LogFollows(s, t, a);
  }

  /** Every step of every thread keeps the invariant. */
  lemma StepKeepsInv(s: State, t: Tid, a: Action)
    requires Inv(s) && Enabled(s, t, a)
    ensures Inv(Next(s, t, a))
  {
    var s' := Next(s, t, a);
    OpsKept(s, t, a);
    LogKept(s, t, a);
    forall e ensures EntryOk(s', e) {
      CountKept(s, t, a, e);
      if e in s'.alive && References(s', e) == 0 {
        StillDeleting(s, t, a, e);
      }
    }
    forall u, e ensures DeletionOk(s', u, e) {
      DeletionKept(s, t, a, u, e);
    }
  }

  // ---------------------------------------------------------------------------
  // Whole runs
  // ---------------------------------------------------------------------------

  datatype Step = Step(thread: Tid, action: Action)

  ghost predicate IsRun(s: State, steps: seq<Step>)
    decreases |steps|
  {
    steps == [] ||
    (Enabled(s, steps[0].thread, steps[0].action) && IsRun(Next(s, steps[0].thread, steps[0].action), steps[1..]))
  }

  function After(s: State, steps: seq<Step>): State
    requires IsRun(s, steps)
    decreases |steps|
  {
    if steps == [] then s else After(Next(s, steps[0].thread, steps[0].action), steps[1..])
  }

  lemma {:induction false} RunKeepsInv(s: State, steps: seq<Step>)
    requires Inv(s) && IsRun(s, steps)
    ensures Inv(After(s, steps))
    decreases |steps|
  {
    if steps != [] {
      StepKeepsInv(s, steps[0].thread, steps[0].action);
      RunKeepsInv(Next(s, steps[0].thread, steps[0].action), steps[1..]);
    }
  }

  lemma InitialInv()
    ensures Inv(INITIAL)
  {
    forall e ensures EntryOk(INITIAL, e) {
      assert Keys(INITIAL.val, e) == Keys(Credits(INITIAL.pcs), e) == Keys(Debits(INITIAL.pcs), e) == {};
    }
  }

  /** An entry is deleted at most once, and only when no handle and no other operation has it. */
  lemma DeletedOnceAndLast(steps: seq<Step>, t: Tid, e: Entry)
    requires IsRun(INITIAL, steps) && Deleting(After(INITIAL, steps), t, e)
    ensures var s := After(INITIAL, steps);
            && e in s.alive && e !in s.log
            && (forall h :: h in s.val ==> s.val[h] != Some(e))
            && (forall u :: u != t ==> Credit(PcOf(s, u)) != Some(e) && Touched(PcOf(s, u)) != Some(e))
  {
    InitialInv();
    RunKeepsInv(INITIAL, steps);
    var s := After(INITIAL, steps);
    assert DeletionOk(s, t, e);
    OutOfReach(s, t, e);
    forall u | u != t ensures Credit(PcOf(s, u)) != Some(e) && Touched(PcOf(s, u)) != Some(e) {
      OthersDoNotTouch(s, t, u, e);
    }
    forall h | h in s.val ensures s.val[h] != Some(e) {
      assert !Holds(s, h, Some(e));
    }
  }

  /** No reference but the one of t is left: exactly then the count is one. */
  lemma LastExactly(s: State, t: Tid, e: Entry)
    requires OpsOk(s) && t in s.pcs && Credit(s.pcs[t]) == Some(e)
    ensures References(s, e) == 1 <==> Keys(s.val, e) == {} && Keys(Credits(s.pcs), e) == {t}
  {
    if References(s, e) == 1 {
      LastReference(s, t, e);
    }
    DebitsAreCovered(s, e);
  }

  /**
   Unref deletes exactly if it gives up the last reference: neither a handle nor another
   operation has the entry. It then finds out before the decrement or by it.
   */
  lemma DeletesExactlyWhenLast(steps: seq<Step>, t: Tid, e: Entry)
    requires IsRun(INITIAL, steps)
    requires PcOf(After(INITIAL, steps), t) == Load(e) || PcOf(After(INITIAL, steps), t) == Subtract(e)
    ensures var s := After(INITIAL, steps);
            Deleting(Next(s, t, Advance), t, e) <==> Keys(s.val, e) == {} && Keys(Credits(s.pcs), e) == {t}
  {
    InitialInv();
    RunKeepsInv(INITIAL, steps);
    var s := After(INITIAL, steps);
    TouchesAlive(s, t, e);
    LastExactly(s, t, e);
  }

  /** In every run, no step reads, changes or frees an entry that has been deleted. */
  lemma NoUseAfterDelete(steps: seq<Step>, t: Tid, e: Entry)
    requires IsRun(INITIAL, steps) && Touched(PcOf(After(INITIAL, steps), t)) == Some(e)
    ensures e in After(INITIAL, steps).alive
  {
    InitialInv();
    RunKeepsInv(INITIAL, steps);
    TouchesAlive(After(INITIAL, steps), t, e);
  }

  /**
   What the signal handler sees: between any two steps of any operations, every handle is
   null or leads to a live entry.
   */
  lemma HandlerReadsAlive(steps: seq<Step>, h: Handle, e: Entry)
    requires IsRun(INITIAL, steps) && Holds(After(INITIAL, steps), h, Some(e))
    ensures e in After(INITIAL, steps).alive
  {
    InitialInv();
    RunKeepsInv(INITIAL, steps);
    var s := After(INITIAL, steps);
    assert EntryOk(s, e);
    NoneLeft(s, e);
    assert h in Keys(s.val, e);
  }

  /**
   Between set_entry and Ref of a copy assignment the count of the entry is below the number
   of references to it: by one for every operation that has stored it and not yet counted
   it, or not yet cleared where it came from. With no other operation under way it is one
   below the number of handles.
   */
  lemma CountLagsBehind(steps: seq<Step>, t: Tid, e: Entry)
    requires IsRun(INITIAL, steps)
    requires PcOf(After(INITIAL, steps), t).CopyCount? && PcOf(After(INITIAL, steps), t).now == Some(e)
    ensures var s := After(INITIAL, steps);
            && Rc(s, e) == Tally(s.val, e) + Tally(Credits(s.pcs), e) - Tally(Debits(s.pcs), e)
            && 1 <= Tally(Debits(s.pcs), e) < Tally(s.val, e)
            && (PcOf(s, t).was != Some(e) && (forall u :: u != t ==> PcOf(s, u) == Idle) ==>
                  Rc(s, e) == Tally(s.val, e) - 1)
  {
    InitialInv();
    RunKeepsInv(INITIAL, steps);
    var s := After(INITIAL, steps);
    TouchesAlive(s, t, e);
    TallyOne(Debits(s.pcs), t, e);
    DebitsAreCovered(s, e);
    if PcOf(s, t).was != Some(e) && forall u :: u != t ==> PcOf(s, u) == Idle {
      forall u | u in s.pcs && u != t ensures s.pcs[u] == Idle {
        assert PcOf(s, u) == Idle;
      }
      assert Keys(Credits(s.pcs), e) == {};
      assert Keys(Debits(s.pcs), e) == {t};
    }
  }

  /**
   When no operation is under way, an entry is alive exactly if some handle has it, its
   count is the number of such handles, and otherwise it has been deleted exactly once.
   */
  lemma QuietCounts(steps: seq<Step>, e: Entry)
    requires IsRun(INITIAL, steps) && e in After(INITIAL, steps).rc
    requires forall t :: PcOf(After(INITIAL, steps), t) == Idle
    ensures var s := After(INITIAL, steps);
            && (e in s.alive <==> exists h :: Holds(s, h, Some(e)))
            && (e in s.alive ==> Rc(s, e) == Tally(s.val, e))
            && (e !in s.alive ==> exists i :: 0 <= i < |s.log| && s.log[i] == e
                                               && forall j :: 0 <= j < |s.log| && s.log[j] == e ==> j == i)
  {
    InitialInv();
    RunKeepsInv(INITIAL, steps);
    var s := After(INITIAL, steps);
    assert EntryOk(s, e);
    QuietReferences(s, e);
    if e in s.alive {
      var h :| h in Keys(s.val, e);
      assert Holds(s, h, Some(e));
    } else {
      forall h ensures !Holds(s, h, Some(e)) {
        assert h !in Keys(s.val, e);
      }
      var i :| 0 <= i < |s.log| && s.log[i] == e;
    }
  }

  /** With no operation under way, references are handles. */
  lemma QuietReferences(s: State, e: Entry)
    requires forall t :: PcOf(s, t) == Idle
    ensures References(s, e) == Tally(s.val, e) && !exists t :: Deleting(s, t, e)
    ensures Tally(s.val, e) == 0 <==> Keys(s.val, e) == {}
  {
    forall t | t in s.pcs ensures s.pcs[t] == Idle {
      assert PcOf(s, t) == Idle;
    }
    assert Keys(Credits(s.pcs), e) == Keys(Debits(s.pcs), e) == {};
  }

  // ---------------------------------------------------------------------------
  // What every operation does to the handles
  // ---------------------------------------------------------------------------

  /** What an operation that found the handles as `v` promises to make of them. */
  ghost predicate Achieved(val: map<Handle, Option<Entry>>, a: Action, v: map<Handle, Option<Entry>>) {
    match a
    case Default(h) => h in val && val[h] == None
    case Adopt(h, e) => h in val && val[h] == Some(e)
    case BeginCopyNew(h, o) => o in v && h in val && o in val && val[h] == val[o] == v[o]
    case BeginCopy(h, o) => o in v && h in val && o in val && val[h] == val[o] == v[o]
    case BeginMoveNew(h, o) => o in v && h in val && o in val && val[h] == v[o] && val[o] == None
    case BeginMove(h, o) =>
      o in v && h in val && o in val && val[h] == v[o] && val[o] == if h == o then v[o] else None
    case BeginSwap(h, o) => h in v && o in v && h in val && o in val && val[h] == v[o] && val[o] == v[h]
    case Destroy(h) => h !in val
    case Advance => true
  }

  /** Thread t is inside operation a, which found the handles as `v`, and has not made its last store. */
  ghost predicate Storing(p: Pc, a: Action, v: map<Handle, Option<Entry>>) {
    match a
    case BeginCopyNew(h, o) => o in v && (p == CopyNew(h, o, v[o]) || p == CopyStore(h, o, v[o]))
    case BeginCopy(h, o) => h in v && o in v && p == CopyStart(h, o, v[h], v[o])
    case BeginMoveNew(h, o) => o in v && p == MoveNew(h, o, v[o])
    case BeginMove(h, o) =>
      h in v && o in v && (p == MoveStart(h, o, v[h], v[o]) || p == MoveClear(h, o, v[h], v[o]))
    case BeginSwap(h, o) =>
      h in v && o in v && (p == SwapStart(h, o, v[h], v[o]) || p == SwapBack(h, o, v[h], v[o]))
    case _ => false
  }

  /** How many steps an operation has left at most, and how many up to its last store. */
  function Left(p: Pc): nat {
    match p
    case Idle => 0
    case CopyStart(_, _, _, _) => 5
    case MoveStart(_, _, _, _) => 5
    case CopyCount(_, _, _, _) => 4
    case MoveClear(_, _, _, _) => 4
    case Load(_) => 3
    case CopyNew(_, _, _) => 2
    case SwapStart(_, _, _, _) => 2
    case Subtract(_) => 2
    case _ => 1
  }

  function StoresLeft(p: Pc): nat {
    match p
    case CopyNew(_, _, _) => 2
    case MoveStart(_, _, _, _) => 2
    case SwapStart(_, _, _, _) => 2
    case CopyStore(_, _, _) => 1
    case CopyStart(_, _, _, _) => 1
    case MoveNew(_, _, _) => 1
    case MoveClear(_, _, _, _) => 1
    case SwapBack(_, _, _, _) => 1
    case _ => 0
  }

  /** How many of these steps thread t takes. */
  function Own(steps: seq<Step>, t: Tid): nat {
    if steps == [] then 0 else (if steps[0].thread == t then 1 else 0) + Own(steps[1..], t)
  }

  lemma BeginEffect(s: State, t: Tid, a: Action)
    requires Enabled(s, t, a) && a != Advance
    ensures var s' := Next(s, t, a);
            Storing(PcOf(s', t), a, s.val) || (Achieved(s'.val, a, s.val) && StoresLeft(PcOf(s', t)) == 0)
  {
  }

  lemma AdvanceEffect(s: State, t: Tid, a: Action, v: map<Handle, Option<Entry>>)
    requires PcOk(s, PcOf(s, t)) && Storing(PcOf(s, t), a, v)
    ensures var s' := Next(s, t, Advance);
            || (Storing(PcOf(s', t), a, v) && StoresLeft(PcOf(s', t)) < StoresLeft(PcOf(s, t)))
            || (Achieved(s'.val, a, v) && StoresLeft(PcOf(s', t)) == 0)
  {
  }

  /** One step of any thread u, seen from the operation of t. */
  lemma StepEffect(s: State, u: Tid, b: Action, t: Tid, a: Action, v: map<Handle, Option<Entry>>)
    requires OpsOk(s) && Enabled(s, u, b) && (u == t ==> b == Advance) && Storing(PcOf(s, t), a, v)
    ensures var s' := Next(s, u, b);
            || (Storing(PcOf(s', t), a, v) && StoresLeft(PcOf(s', t)) + One(u == t) <= StoresLeft(PcOf(s, t)))
            || (u == t && Achieved(s'.val, a, v) && StoresLeft(PcOf(s', t)) == 0)
    ensures OpsOk(Next(s, u, b))
  {
    OpsKept(s, u, b);
    if u == t {
      AdvanceEffect(s, t, a, v);
    } else {
      OthersStay(s, u, b);
    }
  }

  ghost predicate OnlyAdvances(steps: seq<Step>, t: Tid) {
    forall i :: 0 <= i < |steps| && steps[i].thread == t ==> steps[i].action == Advance
  }

  lemma OnlyAdvancesLater(steps: seq<Step>, t: Tid)
    requires OnlyAdvances(steps, t) && steps != []
    ensures OnlyAdvances(steps[1..], t)
  {
  }

  /** The last store has been made after k steps, the last of them by t, and the promise is kept there. */
  ghost predicate AchievedAfter(s: State, steps: seq<Step>, t: Tid, a: Action, v: map<Handle, Option<Entry>>, k: nat)
    requires k <= |steps|
  {
    && IsRun(s, steps[..k]) && Achieved(After(s, steps[..k]).val, a, v)
    && StoresLeft(PcOf(After(s, steps[..k]), t)) == 0
    && (k > 0 ==> steps[k - 1].thread == t)
  }

  lemma AchievedLater(s: State, steps: seq<Step>, t: Tid, a: Action, v: map<Handle, Option<Entry>>, k: nat)
    requires steps != [] && Enabled(s, steps[0].thread, steps[0].action) && k < |steps|
    requires AchievedAfter(Next(s, steps[0].thread, steps[0].action), steps[1..], t, a, v, k)
    requires k == 0 ==> steps[0].thread == t
    ensures AchievedAfter(s, steps, t, a, v, k + 1)
  {
    assert steps[..k + 1][0] == steps[0] && steps[..k + 1][1..] == steps[1..][..k];
  }

  lemma AchievedNow(s: State, steps: seq<Step>, t: Tid, a: Action, v: map<Handle, Option<Entry>>)
    requires steps != [] && Enabled(s, t, Advance) && steps[0] == Step(t, Advance)
    requires Achieved(Next(s, t, Advance).val, a, v) && StoresLeft(PcOf(Next(s, t, Advance), t)) == 0
    ensures AchievedAfter(s, steps, t, a, v, 1)
  {
    assert steps[..1] == [steps[0]] && steps[..1][1..] == [];
  }

  /** The operation still has a store to make (k is 0), or made its last one after k steps. */
  ghost predicate Outcome(s: State, steps: seq<Step>, t: Tid, a: Action, v: map<Handle, Option<Entry>>, k: nat)
    requires IsRun(s, steps)
  {
    if k == 0 then Storing(PcOf(After(s, steps), t), a, v) && Own(steps, t) < StoresLeft(PcOf(s, t))
    else k <= |steps| && AchievedAfter(s, steps, t, a, v, k)
  }

  lemma OutcomeOneEarlier(s: State, steps: seq<Step>, t: Tid, a: Action, v: map<Handle, Option<Entry>>, k: nat)
    requires IsRun(s, steps) && steps != []
    requires var s' := Next(s, steps[0].thread, steps[0].action);
             && StoresLeft(PcOf(s', t)) + One(steps[0].thread == t) <= StoresLeft(PcOf(s, t))
             && Outcome(s', steps[1..], t, a, v, k)
    ensures Outcome(s, steps, t, a, v, if k == 0 then 0 else k + 1)
  {
    if k > 0 {
      AchievedLater(s, steps, t, a, v, k);
    }
  }

  lemma {:induction false} StoringGoesOn(s: State, steps: seq<Step>, t: Tid, a: Action,
                                         v: map<Handle, Option<Entry>>) returns (k: nat)
    requires OpsOk(s) && IsRun(s, steps) && OnlyAdvances(steps, t) && Storing(PcOf(s, t), a, v)
    ensures Outcome(s, steps, t, a, v, k)
    decreases |steps|
  {
    if steps == [] {
      return 0;
    }
    var u, b := steps[0].thread, steps[0].action;
    StepEffect(s, u, b, t, a, v);
    if Storing(PcOf(Next(s, u, b), t), a, v) {
      OnlyAdvancesLater(steps, t);
      k := StoringGoesOn(Next(s, u, b), steps[1..], t, a, v);
      OutcomeOneEarlier(s, steps, t, a, v, k);
      k := if k == 0 then 0 else k + 1;
    } else {
      AchievedNow(s, steps, t, a, v);
      k := 1;
    }
  }

  /**
   Whatever the other threads do, an operation either still has a store to make and has taken
   at most one step since it began, or there is the moment of its last store: and at that
   moment the handles are as it promised, in terms of what they were when it began.
   */
  lemma OperationTakesEffect(steps: seq<Step>, t: Tid, a: Action, during: seq<Step>) returns (k: nat)
    requires IsRun(INITIAL, steps) && Enabled(After(INITIAL, steps), t, a) && a != Advance
    requires IsRun(Next(After(INITIAL, steps), t, a), during) && OnlyAdvances(during, t)
    ensures var s := After(INITIAL, steps);
            var s' := Next(s, t, a);
            || (Storing(PcOf(After(s', during), t), a, s.val) && Own(during, t) < 2)
            || (k <= |during| && AchievedAfter(s', during, t, a, s.val, k))
  {
    InitialInv();
    RunKeepsInv(INITIAL, steps);
    var s := After(INITIAL, steps);
    OpsKept(s, t, a);
    BeginEffect(s, t, a);
    if Storing(PcOf(Next(s, t, a), t), a, s.val) {
      k := StoringGoesOn(Next(s, t, a), during, t, a, s.val);
    } else {
      k := 0;
      assert during[..0] == [];
    }
  }

  lemma StepLeaves(s: State, u: Tid, b: Action, t: Tid)
    requires Enabled(s, u, b) && (u == t ==> b == Advance)
    ensures Left(PcOf(Next(s, u, b), t)) + One(u == t) <= Left(PcOf(s, t))
  {
    if u != t {
      OthersStay(s, u, b);
    }
  }

  lemma {:induction false} OwnStepsBound(s: State, steps: seq<Step>, t: Tid)
    requires IsRun(s, steps) && OnlyAdvances(steps, t)
    ensures Own(steps, t) + Left(PcOf(After(s, steps), t)) <= Left(PcOf(s, t))
    decreases |steps|
  {
    if steps != [] {
      StepLeaves(s, steps[0].thread, steps[0].action, t);
      OnlyAdvancesLater(steps, t);
      OwnStepsBound(Next(s, steps[0].thread, steps[0].action), steps[1..], t);
    }
  }

  /** Every operation is over after at most five further steps of its own, with no help from others. */
  lemma OperationEnds(s: State, t: Tid, a: Action, during: seq<Step>)
    requires Enabled(s, t, a) && IsRun(Next(s, t, a), during) && OnlyAdvances(during, t)
    ensures Own(during, t) <= 5
    ensures PcOf(After(Next(s, t, a), during), t) != Idle ==> Enabled(After(Next(s, t, a), during), t, Advance)
    ensures Own(during, t) == 5 ==> PcOf(After(Next(s, t, a), during), t) == Idle
  {
    OwnStepsBound(Next(s, t, a), during, t);
  }

  /** No step of the run writes handle h. */
  ghost predicate NobodyWrites(s: State, steps: seq<Step>, h: Handle)
    requires IsRun(s, steps)
    decreases |steps|
  {
    steps == [] ||
    (h !in WrittenBy(s, steps[0].thread, steps[0].action)
     && NobodyWrites(Next(s, steps[0].thread, steps[0].action), steps[1..], h))
  }

  lemma {:induction false} UnwrittenStays(s: State, steps: seq<Step>, h: Handle)
    requires IsRun(s, steps) && NobodyWrites(s, steps, h)
    ensures h in After(s, steps).val <==> h in s.val
    ensures h in s.val ==> After(s, steps).val[h] == s.val[h]
    decreases |steps|
  {
    if steps != [] {
      StepFrame(s, steps[0].thread, steps[0].action, h);
      UnwrittenStays(Next(s, steps[0].thread, steps[0].action), steps[1..], h);
    }
  }

  /**
   Callers owe nothing else: an idle thread may begin any operation on two handles, or on one
   taken twice, if nobody else is inside an operation on them.
   */
  lemma FreeHandlesAllowAnything(s: State, t: Tid, h: Handle, o: Handle, e: Entry)
    requires PcOf(s, t) == Idle && forall u :: u in s.pcs && u != t ==> Uses(s.pcs[u]) !! {h, o}
    ensures h !in s.val ==> Enabled(s, t, Default(h)) && (e !in s.rc ==> Enabled(s, t, Adopt(h, e)))
    ensures h !in s.val && o in s.val ==> Enabled(s, t, BeginCopyNew(h, o)) && Enabled(s, t, BeginMoveNew(h, o))
    ensures h in s.val && o in s.val ==>
              && Enabled(s, t, BeginCopy(h, o)) && Enabled(s, t, BeginMove(h, o))
              && Enabled(s, t, BeginSwap(h, o)) && Enabled(s, t, Destroy(h))
  {
    forall u | u in s.pcs && u != t
      ensures Writes(s.pcs[u]) !! {h, o} && Uses(s.pcs[u]) !! {h} && Writes(s.pcs[u]) !! ({h} + {o})
    {
      assert Writes(s.pcs[u]) <= Uses(s.pcs[u]);
    }
  }

  /** Copying only reads: while one thread copies a handle, any idle thread may begin to copy it as well. */
  lemma CopiesShareTheirSource(steps: seq<Step>, t: Tid, u: Tid, h: Handle)
    requires IsRun(INITIAL, steps)
    requires var s := After(INITIAL, steps);
             && (PcOf(s, t).CopyNew? || PcOf(s, t).CopyStore? || PcOf(s, t).CopyStart? || PcOf(s, t).CopyCount?)
             && PcOf(s, u) == Idle && forall w :: h !in Uses(PcOf(s, w))
    ensures var s := After(INITIAL, steps);
            Enabled(s, u, if h in s.val then BeginCopy(h, PcOf(s, t).o) else BeginCopyNew(h, PcOf(s, t).o))
  {
    InitialInv();
    RunKeepsInv(INITIAL, steps);
    var s := After(INITIAL, steps);
    var o := PcOf(s, t).o;
    assert PcOk(s, s.pcs[t]) && o in Uses(s.pcs[t]);
    forall w | w in s.pcs && w != u ensures Writes(s.pcs[w]) !! ({h} + {o}) && Uses(s.pcs[w]) !! {h} {
      assert h !in Uses(PcOf(s, w));
      assert Writes(s.pcs[w]) <= Uses(s.pcs[w]);
      assert w != t ==> Writes(s.pcs[w]) !! Uses(s.pcs[t]);
    }
  }
}
