/**
 The one-waiter semaphore built on a futex: SemWait, SemTimedWait and SemPost, one
 atomic memory access or system call per step.

 At most one thread is inside a wait at a time; any number of threads post. The steps
 of all threads interleave freely. The kernel is represented by what it promises:
 FUTEX_WAIT queues the caller only if the word still holds the expected value and
 reports EWOULDBLOCK otherwise, it may report EINTR or (with a deadline) ETIMEDOUT
 while the caller is queued, and FUTEX_WAKE reports 1 exactly when it dequeued the
 waiter, whose system call then reports 0.
 */
module FutexSemaphore {

  /** Where the one waiting thread is. */
  datatype Waiter =
    | Out                            // no thread is inside a wait
    | Calling(x: int, timed: bool)   // about to enter FUTEX_WAIT expecting the value x
    | Asleep(x: int, timed: bool)    // queued in the kernel
    | Woken                          // dequeued by FUTEX_WAKE; the call will report 0
    | Reloading(timed: bool)         // saw EWOULDBLOCK, about to reload the counter
    | Expired                        // saw ETIMEDOUT, about to add its unit back
    | Undoing                        // found a posted permit, about to subtract again

  /** The counter word, the waiter, and the posters inside the wake loop. */
  datatype State = State(v: int, waiter: Waiter, wakers: set<nat>)

  /** One atomic step of some thread or of the kernel. */
  datatype Action =
    | StartWait(timed: bool)   // the fetch_sub that opens a wait
    | KernelCheck              // FUTEX_WAIT compares the word and queues or refuses
    | Interrupt                // EINTR while queued
    | Timeout                  // ETIMEDOUT while queued with a deadline
    | Reload                   // reload after EWOULDBLOCK
    | AddBack                  // the fetch_add of the timeout path
    | TakeBack                 // the fetch_sub that undoes it
    | ReturnWoken              // FUTEX_WAIT reports 0 and the wait returns
    | Post(p: nat)             // the fetch_add that opens a post by thread p
    | Wake(p: nat)             // one FUTEX_WAKE by thread p

  /** What a caller of the semaphore can see happen. */
  datatype Event = Silent | Posted | Acquired | GaveUp

  predicate Enabled(s: State, a: Action) {
    match a
    case StartWait(_) => s.waiter.Out?
    case KernelCheck => s.waiter.Calling?
    case Interrupt => s.waiter.Asleep?
    case Timeout => s.waiter.Asleep? && s.waiter.timed
    case Reload => s.waiter.Reloading?
    case AddBack => s.waiter.Expired?
    case TakeBack => s.waiter.Undoing?
    case ReturnWoken => s.waiter.Woken?
    case Post(p) => p !in s.wakers
    case Wake(p) => p in s.wakers
  }

  function Next(s: State, a: Action): State
    requires Enabled(s, a)
  {
    match a
    case StartWait(timed) =>
      var x := s.v - 1;
      s.(v := x, waiter := if x >= 0 then Out else Calling(x, timed))
    case KernelCheck =>
      if s.v == s.waiter.x
      then s.(waiter := Asleep(s.waiter.x, s.waiter.timed))
      else s.(waiter := Reloading(s.waiter.timed))
    case Interrupt => s.(waiter := Calling(s.waiter.x, s.waiter.timed))
    case Timeout => s.(waiter := Expired)
    case Reload => s.(waiter := Calling(s.v, s.waiter.timed))
    case AddBack => s.(v := s.v + 1, waiter := if s.v + 1 == 0 then Out else Undoing)
    case TakeBack => s.(v := s.v - 1, waiter := Calling(s.v - 1, false))
    case ReturnWoken => s.(waiter := Out)
    case Post(p) =>
      var x := s.v + 1;
      s.(v := x, wakers := if x > 0 then s.wakers else s.wakers + {p})
    case Wake(p) =>
      if s.waiter.Asleep? then s.(waiter := Woken, wakers := s.wakers - {p}) else s
  }

  function Label(s: State, a: Action): Event
    requires Enabled(s, a)
  {
    match a
    case StartWait(_) => if s.v - 1 >= 0 then Acquired else Silent
    case AddBack => if s.v + 1 == 0 then GaveUp else Silent
    case ReturnWoken => Acquired
    case Post(_) => Posted
    case _ => Silent
  }

  /** A run is a sequence of actions, each enabled where it is taken. */
  predicate IsRun(s: State, run: seq<Action>)
    decreases |run|
  {
    run == [] || (Enabled(s, run[0]) && IsRun(Next(s, run[0]), run[1..]))
  }

  function Final(s: State, run: seq<Action>): State
    requires IsRun(s, run)
    decreases |run|
  {
    if run == [] then s else Final(Next(s, run[0]), run[1..])
  }

  function Trace(s: State, run: seq<Action>): seq<Event>
    requires IsRun(s, run)
    decreases |run|
  {
    if run == [] then [] else [Label(s, run[0])] + Trace(Next(s, run[0]), run[1..])
  }

  function Initial(value: nat): State {
    State(value, Out, {})
  }

  // ---------------------------------------------------------------------------
  // The atomic counting semaphore
  // ---------------------------------------------------------------------------

  /** A counting semaphore with n permits may show this event. */
  predicate SpecAllows(n: nat, e: Event) {
    match e
    case Acquired => n > 0
    case GaveUp => n == 0
    case _ => true
  }

  function SpecNext(n: nat, e: Event): nat
    requires SpecAllows(n, e)
  {
    match e
    case Posted => n + 1
    case Acquired => n - 1
    case _ => n
  }

  predicate SpecAccepts(n: nat, trace: seq<Event>)
    decreases |trace|
  {
    trace == [] || (SpecAllows(n, trace[0]) && SpecAccepts(SpecNext(n, trace[0]), trace[1..]))
  }

  function SpecFinal(n: nat, trace: seq<Event>): nat
    requires SpecAccepts(n, trace)
    decreases |trace|
  {
    if trace == [] then n else SpecFinal(SpecNext(n, trace[0]), trace[1..])
  }

  function Count(trace: seq<Event>, e: Event): nat {
    if trace == [] then 0 else (if trace[0] == e then 1 else 0) + Count(trace[1..], e)
  }

  // ---------------------------------------------------------------------------
  // The invariant
  // ---------------------------------------------------------------------------

  /** The waiter has subtracted one that no completed wait accounts for yet. */
  predicate HoldsUnit(w: Waiter) {
    !w.Out? && !w.Undoing?
  }

  /** The waiter is committed to waiting and no FUTEX_WAKE has dequeued it. */
  predicate Unwoken(w: Waiter) {
    !w.Out? && !w.Woken?
  }

  /** The permits a caller could still obtain: the refinement mapping. */
  function Permits(s: State): int {
    s.v + (if HoldsUnit(s.waiter) then 1 else 0)
  }

  ghost predicate Inv(s: State) {
    && Permits(s) >= 0
    && (s.waiter.Woken? || s.waiter.Undoing? ==> Permits(s) >= 1)
    && (s.wakers != {} <==> Unwoken(s.waiter) && Permits(s) >= 1)
    && (forall p, q :: p in s.wakers && q in s.wakers ==> p == q)
  }

  lemma StepKeepsInv(s: State, a: Action)
    requires Inv(s) && Enabled(s, a)
    ensures Inv(Next(s, a))
    ensures SpecAllows(Permits(s), Label(s, a))
    ensures Permits(Next(s, a)) == SpecNext(Permits(s), Label(s, a))
  {
    match a
    case Post(p) =>
      if s.v + 1 <= 0 {
        assert s.wakers == {};
        assert p in Next(s, a).wakers;
      }
    case Wake(p) =>
      assert forall q :: q in s.wakers ==> q == p;
      assert s.wakers == {p};
    case _ =>
  }

  // ---------------------------------------------------------------------------
  // Whole runs
  // ---------------------------------------------------------------------------

  /** Every interleaving refines the atomic counting semaphore. */
  lemma {:induction false} RunRefines(s: State, run: seq<Action>)
    requires Inv(s) && IsRun(s, run)
    ensures Inv(Final(s, run))
    ensures SpecAccepts(Permits(s), Trace(s, run))
    ensures SpecFinal(Permits(s), Trace(s, run)) == Permits(Final(s, run))
    decreases |run|
  {
    if run != [] {
      var s' := Next(s, run[0]);
      StepKeepsInv(s, run[0]);
      RunRefines(s', run[1..]);
      assert Trace(s, run)[1..] == Trace(s', run[1..]);
    }
  }

  lemma {:induction false} SpecConserves(n: nat, trace: seq<Event>)
    requires SpecAccepts(n, trace)
    ensures SpecFinal(n, trace) + Count(trace, Acquired) == n + Count(trace, Posted)
    decreases |trace|
  {
    if trace != [] {
      SpecConserves(SpecNext(n, trace[0]), trace[1..]);
    }
  }

  /**
   Nothing is lost and nothing is invented: in every run from an idle semaphore the
   permits left plus the successful waits are the initial value plus the posts, and a
   wait gives up only where the counting semaphore is at zero.
   */
  lemma Conservation(value: nat, run: seq<Action>)
    requires IsRun(Initial(value), run)
    ensures var t := Trace(Initial(value), run);
            && SpecAccepts(value, t)
            && Permits(Final(Initial(value), run)) + Count(t, Acquired) == value + Count(t, Posted)
            && Count(t, Acquired) <= value + Count(t, Posted)
  {
    RunRefines(Initial(value), run);
    SpecConserves(value, Trace(Initial(value), run));
  }

  /** The counter stays within 32 bits as long as the permits ever handed in do. */
  lemma CounterRange(value: nat, run: seq<Action>)
    requires IsRun(Initial(value), run)
    ensures var s := Final(Initial(value), run);
            -1 <= s.v <= value + Count(Trace(Initial(value), run), Posted)
  {
    RunRefines(Initial(value), run);
    Conservation(value, run);
  }

  /**
   In every reachable state at most one poster is in the wake loop, and one is there
   exactly when a committed waiter has not been woken and a permit is there for it.
   */
  lemma OneWaker(value: nat, run: seq<Action>)
    requires IsRun(Initial(value), run)
    ensures var s := Final(Initial(value), run);
            && |s.wakers| <= 1
            && (|s.wakers| == 1 <==> Unwoken(s.waiter) && Permits(s) >= 1)
  {
    RunRefines(Initial(value), run);
    var s := Final(Initial(value), run);
    if s.wakers != {} {
      var p :| p in s.wakers;
      assert s.wakers == {p};
    }
  }

  /** A sleeping waiter with a permit has a poster whose next FUTEX_WAKE dequeues it. */
  lemma NoLostWakeup(value: nat, run: seq<Action>)
    requires IsRun(Initial(value), run)
    requires Final(Initial(value), run).waiter.Asleep?
    requires Permits(Final(Initial(value), run)) >= 1
    ensures var s := Final(Initial(value), run);
            exists p :: Enabled(s, Wake(p)) && Next(s, Wake(p)).waiter == Woken
  {
    RunRefines(Initial(value), run);
    var s := Final(Initial(value), run);
    var p :| p in s.wakers;
    assert Enabled(s, Wake(p)) && Next(s, Wake(p)).waiter == Woken;
  }

  // ---------------------------------------------------------------------------
  // Progress
  // ---------------------------------------------------------------------------

  /** How far a waiter for which a permit exists still is from returning. */
  function Rank(s: State): nat {
    match s.waiter
    case Out => 0
    case Woken => 1
    case Asleep(_, timed) => if timed then 6 else 2
    case Calling(x, timed) => (if timed then 7 else 3) + (if x == s.v then 0 else 2)
    case Reloading(timed) => if timed then 8 else 4
    case Undoing => 4
    case Expired => 5
  }

  /** A FUTEX_WAKE that finds nobody queued; the poster simply tries again. */
  predicate IsIdleWake(s: State, a: Action) {
    a.Wake? && !s.waiter.Asleep?
  }

  /** The steps that can set a waiter back: another post, or a signal. */
  predicate IsDisturbance(a: Action) {
    a.Post? || a.Interrupt?
  }

  lemma StepProgress(s: State, a: Action)
    requires Inv(s) && Enabled(s, a) && !s.waiter.Out? && Permits(s) >= 1
    ensures Label(s, a) != GaveUp
    ensures Label(s, a) != Acquired ==> !Next(s, a).waiter.Out? && Permits(Next(s, a)) >= 1
    ensures IsIdleWake(s, a) ==> Next(s, a) == s
    ensures !IsIdleWake(s, a) && !IsDisturbance(a) ==> Rank(Next(s, a)) < Rank(s)
    ensures IsDisturbance(a) ==> Rank(Next(s, a)) <= Rank(s) + 3
  {
  }

  /** The steps of a run that are neither idle wakes nor disturbances. */
  function EffectiveSteps(s: State, run: seq<Action>): nat
    requires IsRun(s, run)
    decreases |run|
  {
    if run == [] then 0
    else (if IsIdleWake(s, run[0]) || IsDisturbance(run[0]) then 0 else 1)
         + EffectiveSteps(Next(s, run[0]), run[1..])
  }

  function Disturbances(run: seq<Action>): nat {
    if run == [] then 0 else (if IsDisturbance(run[0]) then 1 else 0) + Disturbances(run[1..])
  }

  lemma {:induction false} RankBoundsDelay(s: State, run: seq<Action>)
    requires Inv(s) && IsRun(s, run) && !s.waiter.Out? && Permits(s) >= 1
    requires Acquired !in Trace(s, run)
    ensures EffectiveSteps(s, run) <= Rank(s) + 3 * Disturbances(run)
    ensures GaveUp !in Trace(s, run)
    decreases |run|
  {
    if run != [] {
      var a, s' := run[0], Next(s, run[0]);
      StepProgress(s, a);
      StepKeepsInv(s, a);
      assert Trace(s, run) == [Label(s, a)] + Trace(s', run[1..]);
      assert Label(s, a) in Trace(s, run);
      assert forall e :: e in Trace(s', run[1..]) ==> e in Trace(s, run);
      RankBoundsDelay(s', run[1..]);
    }
  }

  /**
   A waiter with a permit cannot be delayed for ever, whatever the interleaving: until
   it returns successfully, the steps other than fruitless wakes, posts and signals
   number at most nine plus three for every post and signal, and it never gives up.
   */
  lemma WaiterCannotStarve(value: nat, before: seq<Action>, after: seq<Action>)
    requires IsRun(Initial(value), before)
    requires var s := Final(Initial(value), before);
             !s.waiter.Out? && Permits(s) >= 1 && IsRun(s, after) && Acquired !in Trace(s, after)
    ensures var s := Final(Initial(value), before);
            && EffectiveSteps(s, after) <= 9 + 3 * Disturbances(after)
            && GaveUp !in Trace(s, after)
  {
    RunRefines(Initial(value), before);
    RankBoundsDelay(Final(Initial(value), before), after);
  }

  /** Until the waiter has returned there is always such an effective step to take. */
  lemma NeverStuck(value: nat, run: seq<Action>)
    requires IsRun(Initial(value), run)
    requires var s := Final(Initial(value), run); !s.waiter.Out? && Permits(s) >= 1
    ensures var s := Final(Initial(value), run);
            exists a :: Enabled(s, a) && !IsIdleWake(s, a) && !IsDisturbance(a)
  {
    RunRefines(Initial(value), run);
    var s := Final(Initial(value), run);
    match s.waiter
    case Woken => assert Enabled(s, ReturnWoken);
    case Asleep(_, _) => var p :| p in s.wakers; assert Enabled(s, Wake(p));
    case Calling(_, _) => assert Enabled(s, KernelCheck);
    case Reloading(_) => assert Enabled(s, Reload);
    case Undoing => assert Enabled(s, TakeBack);
    case Expired => assert Enabled(s, AddBack);
  }

  // ---------------------------------------------------------------------------
  // Deadlines
  // ---------------------------------------------------------------------------

  /** The waiter still heeds a deadline. */
  predicate Timed(w: Waiter) {
    match w
    case Calling(_, timed) => timed
    case Asleep(_, timed) => timed
    case Reloading(timed) => timed
    case Expired => true
    case _ => false
  }

  lemma {:induction false} RunsJoin(s: State, first: seq<Action>, second: seq<Action>)
    requires IsRun(s, first) && IsRun(Final(s, first), second)
    ensures IsRun(s, first + second)
    ensures Final(s, first + second) == Final(Final(s, first), second)
    ensures Trace(s, first + second) == Trace(s, first) + Trace(Final(s, first), second)
    decreases |first|
  {
    if first == [] {
      assert first + second == second;
    } else {
      RunsJoin(Next(s, first[0]), first[1..], second);
      assert (first + second)[0] == first[0] && (first + second)[1..] == first[1..] + second;
    }
  }

  /** A timed wait stays timed until a permit is there for it. */
  lemma {:induction false} DeadlineIsKept(s: State, run: seq<Action>)
    requires Inv(s) && IsRun(s, run) && !s.waiter.Out? && (Timed(s.waiter) || Permits(s) >= 1)
    requires Acquired !in Trace(s, run) && GaveUp !in Trace(s, run)
    ensures var s' := Final(s, run); !s'.waiter.Out? && (Timed(s'.waiter) || Permits(s') >= 1)
    decreases |run|
  {
    if run != [] {
      var a, s' := run[0], Next(s, run[0]);
      StepKeepsInv(s, a);
      assert Trace(s, run) == [Label(s, a)] + Trace(s', run[1..]);
      assert Label(s, a) in Trace(s, run);
      assert forall e :: e in Trace(s', run[1..]) ==> e in Trace(s, run);
      DeadlineIsKept(s', run[1..]);
    }
  }

  /** From wherever it is, a timed waiter without a permit can run into its deadline and give up. */
  function WayOut(s: State): seq<Action> {
    match s.waiter
    case Expired => [AddBack]
    case Asleep(_, _) => [Timeout, AddBack]
    case Calling(x, _) =>
      (if x == s.v then [KernelCheck] else [KernelCheck, Reload, KernelCheck]) + [Timeout, AddBack]
    case Reloading(_) => [Reload, KernelCheck, Timeout, AddBack]
    case _ => []
  }

  lemma OneStep(s: State, a: Action, rest: seq<Action>)
    requires Enabled(s, a) && IsRun(Next(s, a), rest)
    ensures IsRun(s, [a] + rest) && Final(s, [a] + rest) == Final(Next(s, a), rest)
    ensures Trace(s, [a] + rest) == [Label(s, a)] + Trace(Next(s, a), rest)
  {
    assert ([a] + rest)[1..] == rest;
  }

  lemma {:induction false} WayOutGivesUp(s: State)
    requires Inv(s) && Timed(s.waiter) && Permits(s) == 0
    ensures |WayOut(s)| <= 5 && IsRun(s, WayOut(s)) && GaveUp in Trace(s, WayOut(s))
    ensures Final(s, WayOut(s)) == State(0, Out, {})
    ensures forall a :: a in WayOut(s) ==> !a.StartWait? && !a.Post?
    decreases |WayOut(s)|
  {
    var w := WayOut(s);
    var s' := Next(s, w[0]);
    StepKeepsInv(s, w[0]);
    assert w == [w[0]] + w[1..];
    if s.waiter.Expired? {
      OneStep(s, w[0], []);
    } else {
      assert w[1..] == WayOut(s');
      WayOutGivesUp(s');
      OneStep(s, w[0], w[1..]);
    }
  }

  /**
   A timed wait for which no permit has come can always give up: however it has run so far,
   at most five steps of its own and of the kernel, with no further call, end it.
   */
  lemma TimedWaitCanGiveUp(value: nat, before: seq<Action>, during: seq<Action>) returns (after: seq<Action>)
    requires IsRun(Initial(value), before) && Enabled(Final(Initial(value), before), StartWait(true))
    requires var s := Final(Initial(value), before);
             var s' := Next(s, StartWait(true));
             && Label(s, StartWait(true)) != Acquired && IsRun(s', during)
             && Acquired !in Trace(s', during) && GaveUp !in Trace(s', during)
             && Permits(Final(s', during)) == 0
    ensures var s := Final(Next(Final(Initial(value), before), StartWait(true)), during);
            && |after| <= 5 && IsRun(s, after) && GaveUp in Trace(s, after) && Final(s, after) == Initial(0)
            && forall a :: a in after ==> !a.StartWait? && !a.Post?
  {
    RunRefines(Initial(value), before);
    var s := Next(Final(Initial(value), before), StartWait(true));
    StepKeepsInv(Final(Initial(value), before), StartWait(true));
    RunRefines(s, during);
    DeadlineIsKept(s, during);
    WayOutGivesUp(Final(s, during));
    after := WayOut(Final(s, during));
  }

  /** A wait without a deadline never gives up. */
  lemma {:induction false} UntimedNeverGivesUp(s: State, run: seq<Action>)
    requires Inv(s) && IsRun(s, run) && !Timed(s.waiter) && forall a :: a in run ==> !a.StartWait?
    ensures GaveUp !in Trace(s, run)
    decreases |run|
  {
    if run != [] {
      var a, s' := run[0], Next(s, run[0]);
      assert a in run;
      StepKeepsInv(s, a);
      UntimedNeverGivesUp(s', run[1..]);
      assert Trace(s, run) == [Label(s, a)] + Trace(s', run[1..]);
    }
  }

  lemma UntimedWaitNeverGivesUp(value: nat, before: seq<Action>, during: seq<Action>)
    requires IsRun(Initial(value), before) && Enabled(Final(Initial(value), before), StartWait(false))
    requires IsRun(Next(Final(Initial(value), before), StartWait(false)), during)
    requires forall a :: a in during ==> !a.StartWait?
    ensures GaveUp !in Trace(Next(Final(Initial(value), before), StartWait(false)), during)
  {
    RunRefines(Initial(value), before);
    StepKeepsInv(Final(Initial(value), before), StartWait(false));
    UntimedNeverGivesUp(Next(Final(Initial(value), before), StartWait(false)), during);
  }

  /** An interrupted sleeper that finds no permit goes back to sleep; nothing else has changed. */
  lemma InterruptIsHarmless(s: State) returns (run: seq<Action>)
    requires Inv(s) && s.waiter.Asleep?
    ensures run != [] && run[0] == Interrupt && IsRun(s, run)
    ensures Final(s, run) == s.(waiter := Asleep(s.v, s.waiter.timed))
    ensures forall e :: e in Trace(s, run) ==> e == Silent
  {
    var s1 := Next(s, Interrupt);
    var s2 := Next(s1, KernelCheck);
    run := [];
    if s.v != s.waiter.x {
      var s3 := Next(s2, Reload);
      OneStep(s3, KernelCheck, []);
      OneStep(s2, Reload, [KernelCheck] + []);
      run := [Reload] + ([KernelCheck] + []);
    }
    OneStep(s1, KernelCheck, run);
    OneStep(s, Interrupt, [KernelCheck] + run);
    run := [Interrupt] + ([KernelCheck] + run);
  }

  function Posts(ps: seq<nat>): seq<Action> {
    if ps == [] then [] else [Post(ps[0])] + Posts(ps[1..])
  }

  /** Posting never waits: in any state, any threads not already posting can post one after the other. */
  lemma {:induction false} PostsNeverWait(s: State, ps: seq<nat>)
    requires Inv(s) && (forall p :: p in ps ==> p !in s.wakers)
    requires forall i, j :: 0 <= i < j < |ps| ==> ps[i] != ps[j]
    ensures IsRun(s, Posts(ps)) && Inv(Final(s, Posts(ps)))
    ensures Permits(Final(s, Posts(ps))) == Permits(s) + |ps| && Final(s, Posts(ps)).waiter == s.waiter
    decreases |ps|
  {
    if ps != [] {
      var s' := Next(s, Post(ps[0]));
      StepKeepsInv(s, Post(ps[0]));
      forall p | p in ps[1..] ensures p !in s'.wakers {
        assert p in ps && p != ps[0];
      }
      PostsNeverWait(s', ps[1..]);
      OneStep(s, Post(ps[0]), Posts(ps[1..]));
    }
  }

  // ---------------------------------------------------------------------------
  // Nothing of the counting semaphore is missing
  // ---------------------------------------------------------------------------

  /** What callers see of a trace. */
  function Visible(trace: seq<Event>): seq<Event> {
    if trace == [] then [] else (if trace[0] == Silent then [] else [trace[0]]) + Visible(trace[1..])
  }

  lemma VisibleStep(e: Event, trace: seq<Event>)
    ensures Visible([e] + trace) == (if e == Silent then [] else [e]) + Visible(trace)
  {
    assert ([e] + trace)[1..] == trace;
  }

  lemma {:induction false} VisibleJoins(a: seq<Event>, b: seq<Event>)
    ensures Visible(a + b) == Visible(a) + Visible(b)
    decreases |a|
  {
    if a == [] {
      assert a + b == b;
    } else {
      VisibleJoins(a[1..], b);
      VisibleStep(a[0], a[1..]);
      VisibleStep(a[0], a[1..] + b);
      assert a == [a[0]] + a[1..] && a + b == [a[0]] + (a[1..] + b);
    }
  }

  /** The steps `run`, taken one after the other from `s`, end in `last` and show the event `e`. */
  predicate Shows(s: State, run: seq<Action>, last: State, e: Event) {
    IsRun(s, run) && Final(s, run) == last && Visible(Trace(s, run)) == [e]
  }

  lemma ShowsAtOnce(s: State, a: Action)
    requires Enabled(s, a) && Label(s, a) != Silent
    ensures Shows(s, [a] + [], Next(s, a), Label(s, a))
  {
    OneStep(s, a, []);
    VisibleStep(Label(s, a), []);
  }

  lemma ShowsLater(s: State, a: Action, run: seq<Action>, last: State, e: Event)
    requires Enabled(s, a) && Label(s, a) == Silent && Shows(Next(s, a), run, last, e)
    ensures Shows(s, [a] + run, last, e)
  {
    OneStep(s, a, run);
    VisibleStep(Silent, Trace(Next(s, a), run));
  }

  lemma ShowsEvent(n: nat, e: Event) returns (run: seq<Action>)
    requires SpecAllows(n, e) && e != Silent
    ensures Shows(Initial(n), run, Initial(SpecNext(n, e)), e)
  {
    match e
    case Posted =>
      ShowsAtOnce(Initial(n), Post(0));
      run := [Post(0)] + [];
    case Acquired =>
      ShowsAtOnce(Initial(n), StartWait(false));
      run := [StartWait(false)] + [];
    case GaveUp =>
      var asleep := State(-1, Asleep(-1, true), {});
      ShowsAtOnce(State(-1, Expired, {}), AddBack);
      ShowsLater(asleep, Timeout, [AddBack] + [], Initial(0), GaveUp);
      ShowsLater(State(-1, Calling(-1, true), {}), KernelCheck, [Timeout] + ([AddBack] + []), Initial(0), GaveUp);
      run := [KernelCheck] + ([Timeout] + ([AddBack] + []));
      ShowsLater(Initial(0), StartWait(true), run, Initial(0), GaveUp);
      run := [StartWait(true)] + run;
  }

  /** Whatever an atomic counting semaphore can show, some run of the code shows. */
  lemma {:induction false} EveryBehaviourOccurs(n: nat, trace: seq<Event>) returns (run: seq<Action>)
    requires SpecAccepts(n, trace) && Silent !in trace
    ensures IsRun(Initial(n), run) && Final(Initial(n), run) == Initial(SpecFinal(n, trace))
    ensures Visible(Trace(Initial(n), run)) == trace
    decreases |trace|
  {
    if trace == [] {
      run := [];
    } else {
      var first := ShowsEvent(n, trace[0]);
      assert forall e :: e in trace[1..] ==> e in trace;
      var rest := EveryBehaviourOccurs(SpecNext(n, trace[0]), trace[1..]);
      RunsJoin(Initial(n), first, rest);
      VisibleJoins(Trace(Initial(n), first), Trace(Initial(SpecNext(n, trace[0])), rest));
      run := first + rest;
    }
  }
}
