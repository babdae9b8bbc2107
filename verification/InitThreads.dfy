/**
 Module initializers under threads. The table lock is released while an initializer body
 runs, and while a thread waits for its turn; what then keeps other threads out is the
 per-type run lock that BeginRun and EndRun build from run_count_ and runner_tid_.

 Every thread may call Require or RunInitializers at any time from outside, and Require
 any number of times from inside a body. Threads interleave between lock sections and,
 inside a lock section, nothing else moves because the lock is held.
 */
module InitThreads {
  import opened Options

  type Node = nat
  type Kind = nat
  type Tid = nat

  /** Declared dependencies, in name order, and the type of each initializer. */
  datatype Config = Config(deps: map<Node, seq<Node>>, kind: map<Node, Kind>)

  function Deps(c: Config, n: Node): seq<Node> {
    if n in c.deps then c.deps[n] else []
  }

  function KindOf(c: Config, n: Node): Kind {
    if n in c.kind then c.kind[n] else 0
  }

  /** Dependencies are declared within one type. */
  ghost predicate WellTyped(c: Config) {
    forall n, d :: d in Deps(c, n) ==> KindOf(c, d) == KindOf(c, n)
  }

  /** One activation on a thread's stack. */
  datatype Frame =
    | Run(kind: Kind, asked: seq<Node>, todo: seq<Node>)   // between BeginRun and EndRun
    | Before(n: Node, todo: seq<Node>)    // n is active, its dependencies are being run
    | Body(n: Node)                       // n is active, its body is running without the lock

  datatype State = State(lock: Option<Tid>, count: map<Kind, nat>, runner: map<Kind, Tid>, active: set<Node>,
                         done: set<Node>, stacks: map<Tid, seq<Frame>>, begun: seq<Node>)

  function Count(s: State, k: Kind): nat {
    if k in s.count then s.count[k] else 0
  }

  function Runner(s: State, k: Kind): Tid {
    if k in s.runner then s.runner[k] else 0
  }

  function Stack(s: State, t: Tid): seq<Frame> {
    if t in s.stacks then s.stacks[t] else []
  }

  function Top(st: seq<Frame>): Frame
    requires st != []
  {
    st[|st| - 1]
  }

  function Pop(st: seq<Frame>): seq<Frame>
    requires st != []
  {
    st[..|st| - 1]
  }

  /** The thread is outside the scheduler: no call in progress, or inside a body. */
  predicate AtRest(st: seq<Frame>) {
    st == [] || Top(st).Body?
  }

  datatype Action =
    | Enter(kind: Kind, todo: seq<Node>)   // lock, wait for CanRun, BeginRun
    | Pick                                 // RunIfNecessary on the next initializer
    | StartBody                            // unlock and call the body
    | EndBody                              // the body returned; lock again
    | Leave                                // EndRun, unlock, return to the caller

  function PopTodo(f: Frame): Frame
    requires !f.Body? && f.todo != []
  {
    match f
    case Run(k, asked, todo) => Run(k, asked, todo[1..])
    case Before(n, todo) => Before(n, todo[1..])
  }

  ghost predicate Enabled(c: Config, s: State, t: Tid, a: Action) {
    var st := Stack(s, t);
    match a
    case Enter(k, todo) =>
      && s.lock == None && AtRest(st)
      && (Count(s, k) == 0 || Runner(s, k) == t)
      && forall n :: n in todo ==> KindOf(c, n) == k
    case Pick =>
      && s.lock == Some(t) && st != [] && !Top(st).Body? && Top(st).todo != []
      && Top(st).todo[0] !in s.active
    case StartBody => s.lock == Some(t) && st != [] && Top(st).Before? && Top(st).todo == []
    case EndBody => s.lock == None && st != [] && Top(st).Body?
    case Leave => s.lock == Some(t) && st != [] && Top(st).Run? && Top(st).todo == []
  }

  /** RunIfNecessary is about to fail its cycle CHECK. */
  ghost predicate CycleCheckFires(s: State, t: Tid) {
    var st := Stack(s, t);
    s.lock == Some(t) && st != [] && !Top(st).Body? && Top(st).todo != [] && Top(st).todo[0] in s.active
  }

  function Next(c: Config, s: State, t: Tid, a: Action): State
    requires Enabled(c, s, t, a)
  {
    var st := Stack(s, t);
    match a
    case Enter(k, todo) =>
      s.(lock := Some(t), count := s.count[k := Count(s, k) + 1],
         runner := if Count(s, k) == 0 then s.runner[k := t] else s.runner,
         stacks := s.stacks[t := st + [Run(k, todo, todo)]])
    case Pick =>
      var n, rest := Top(st).todo[0], Pop(st) + [PopTodo(Top(st))];
      if n in s.done then s.(stacks := s.stacks[t := rest])
      else s.(active := s.active + {n}, stacks := s.stacks[t := rest + [Before(n, Deps(c, n))]])
    case StartBody =>
      var n := Top(st).n;
      s.(lock := None, stacks := s.stacks[t := Pop(st) + [Body(n)]], begun := s.begun + [n])
    case EndBody =>
      var n := Top(st).n;
      s.(lock := Some(t), active := s.active - {n}, done := s.done + {n}, stacks := s.stacks[t := Pop(st)])
    case Leave =>
      var k := Top(st).kind;
      s.(lock := None, count := s.count[k := if Count(s, k) > 0 then Count(s, k) - 1 else 0],
         stacks := s.stacks[t := Pop(st)])
  }

  const INITIAL := State(None, map[], map[], {}, {}, map[], [])

  // ---------------------------------------------------------------------------
  // The invariant
  // ---------------------------------------------------------------------------

  /** How many BeginRun calls of this type a stack has open. */
  function Depth(st: seq<Frame>, k: Kind): nat {
    if st == [] then 0 else Depth(Pop(st), k) + (if Top(st).Run? && Top(st).kind == k then 1 else 0)
  }

  predicate Runs(f: Frame, n: Node) {
    !f.Run? && f.n == n
  }

  /** The initializers a stack is in the middle of. */
  function Work(st: seq<Frame>): set<Node> {
    if st == [] then {} else Work(Pop(st)) + (if Top(st).Run? then {} else {Top(st).n})
  }

  ghost predicate OnStack(s: State, t: Tid, n: Node) {
    n in Work(Stack(s, t))
  }

  /**
   A frame that runs an initializer has its type's run lock below it, runs nothing that is
   already running below it, and was pushed by the scheduler; a Run frame was pushed from
   outside or by a body.
   */
  ghost predicate FrameTyped(c: Config, st: seq<Frame>, i: nat)
    requires i < |st|
  {
    match st[i]
    case Run(k, _, todo) =>
      && AtRest(st[..i])
      && (forall x :: x in todo ==> KindOf(c, x) == k)
    case Before(n, todo) =>
      && !AtRest(st[..i]) && Depth(st[..i], KindOf(c, n)) > 0 && n !in Work(st[..i])
      && (forall x :: x in todo ==> KindOf(c, x) == KindOf(c, n))
    case Body(n) => !AtRest(st[..i]) && Depth(st[..i], KindOf(c, n)) > 0 && n !in Work(st[..i])
  }

  /** What a frame is there to get done before it goes on. */
  function Goals(c: Config, f: Frame): seq<Node> {
    if f.Run? then f.asked else Deps(c, f.n)
  }

  /** That is done, still to be run, or running just above the frame; a body has it all done. */
  ghost predicate FrameOrdered(c: Config, done: set<Node>, st: seq<Frame>, i: nat)
    requires i < |st|
  {
    forall d :: d in Goals(c, st[i]) ==>
      d in done || (!st[i].Body? && (d in st[i].todo || (i + 1 < |st| && Runs(st[i + 1], d))))
  }

  ghost predicate StackTyped(c: Config, st: seq<Frame>) {
    forall i :: 0 <= i < |st| ==> FrameTyped(c, st, i)
  }

  ghost predicate StackOk(c: Config, done: set<Node>, st: seq<Frame>) {
    && StackTyped(c, st)
    && forall i :: 0 <= i < |st| ==> FrameOrdered(c, done, st, i)
  }

  /** run_count_ is the runner's number of open BeginRun calls, and nobody else has one. */
  ghost predicate RunLockAt(s: State, t: Tid, k: Kind) {
    Depth(Stack(s, t), k) == if Count(s, k) > 0 && Runner(s, k) == t then Count(s, k) else 0
  }

  ghost predicate RunLockOk(s: State) {
    forall t, k :: RunLockAt(s, t, k)
  }

  ghost predicate MarksOk(s: State) {
    && (forall n :: n in s.active <==> exists t :: OnStack(s, t, n))
    && s.active !! s.done
  }

  ghost predicate LockOk(s: State) {
    forall t: Tid :: AtRest(Stack(s, t)) <==> s.lock != Some(t)
  }

  /** The initializers whose bodies a stack is running. */
  function Bodies(st: seq<Frame>): set<Node> {
    if st == [] then {} else Bodies(Pop(st)) + (if Top(st).Body? then {Top(st).n} else {})
  }

  ghost predicate InBody(s: State, t: Tid, n: Node) {
    n in Bodies(Stack(s, t))
  }

  /** Bodies begin at most once, and what began is done or still running. */
  ghost predicate BegunOk(s: State) {
    && (forall i, j :: 0 <= i < j < |s.begun| ==> s.begun[i] != s.begun[j])
    && (forall n :: n in s.begun <==> n in s.done || exists t :: InBody(s, t, n))
  }

  ghost predicate Inv(c: Config, s: State) {
    && (forall t :: StackOk(c, s.done, Stack(s, t)))
    && RunLockOk(s) && MarksOk(s) && LockOk(s) && BegunOk(s)
  }

  // ---------------------------------------------------------------------------
  // What each step does to the moving thread's stack
  // ---------------------------------------------------------------------------

  lemma DepthPush(st: seq<Frame>, f: Frame, k: Kind)
    ensures Depth(st + [f], k) == Depth(st, k) + if f.Run? && f.kind == k then 1 else 0
  {
    assert Pop(st + [f]) == st;
  }

  lemma WorkPush(st: seq<Frame>, f: Frame)
    ensures Work(st + [f]) == Work(st) + if f.Run? then {} else {f.n}
  {
    assert Pop(st + [f]) == st;
  }

  lemma PopTyped(c: Config, st: seq<Frame>)
    requires StackTyped(c, st) && st != []
    ensures StackTyped(c, Pop(st))
  {
    forall i | 0 <= i < |st| - 1 ensures FrameTyped(c, Pop(st), i) {
      assert FrameTyped(c, st, i);
      assert Pop(st)[..i] == st[..i];
    }
  }

  lemma PopTopOk(c: Config, done: set<Node>, more: set<Node>, st: seq<Frame>)
    requires StackOk(c, done, st) && st != [] && done <= more
    requires Top(st).Run? || Top(st).n in more
    ensures StackOk(c, more, Pop(st))
  {
    var s' := Pop(st);
    forall i | 0 <= i < |s'| ensures FrameTyped(c, s', i) && FrameOrdered(c, more, s', i) {
      assert FrameTyped(c, st, i) && FrameOrdered(c, done, st, i);
      assert s'[..i] == st[..i];
    }
  }

  /** An active initializer's type is held by its stack. */
  lemma {:induction false} WorkHoldsRun(c: Config, st: seq<Frame>, n: Node)
    requires StackTyped(c, st) && n in Work(st)
    ensures Depth(st, KindOf(c, n)) > 0
  {
    assert FrameTyped(c, st, |st| - 1);
    assert st[..|st| - 1] == Pop(st);
    if !Runs(Top(st), n) {
      PopTyped(c, st);
      WorkHoldsRun(c, Pop(st), n);
    }
  }

  lemma MoreDone(c: Config, done: set<Node>, more: set<Node>, st: seq<Frame>)
    requires StackOk(c, done, st) && done <= more
    ensures StackOk(c, more, st)
  {
    forall i | 0 <= i < |st| ensures FrameTyped(c, st, i) && FrameOrdered(c, more, st, i) {
      assert FrameTyped(c, st, i) && FrameOrdered(c, done, st, i);
    }
  }

  /** Replacing or pushing the top frame asks only for the new frame and the one below it. */
  lemma TopOk(c: Config, done: set<Node>, st: seq<Frame>, f: Frame)
    requires StackOk(c, done, st)
    requires FrameTyped(c, st + [f], |st|) && FrameOrdered(c, done, st + [f], |st|)
    ensures StackOk(c, done, st + [f])
  {
    var s' := st + [f];
    forall i | 0 <= i < |s'| ensures FrameTyped(c, s', i) && FrameOrdered(c, done, s', i) {
      if i < |st| {
        assert FrameTyped(c, st, i) && FrameOrdered(c, done, st, i);
        assert s'[..i] == st[..i];
      }
    }
  }

  lemma PushRunOk(c: Config, done: set<Node>, st: seq<Frame>, k: Kind, todo: seq<Node>)
    requires StackOk(c, done, st) && AtRest(st)
    requires forall n :: n in todo ==> KindOf(c, n) == k
    ensures StackOk(c, done, st + [Run(k, todo, todo)])
  {
    assert (st + [Run(k, todo, todo)])[..|st|] == st;
    TopOk(c, done, st, Run(k, todo, todo));
  }

  /** The new top frame runs the same initializer as the old one, if any. */
  lemma ReplaceTopOk(c: Config, done: set<Node>, st: seq<Frame>, f: Frame)
    requires StackOk(c, done, st) && st != []
    requires forall n :: Runs(f, n) <==> Runs(Top(st), n)
    requires FrameTyped(c, Pop(st) + [f], |st| - 1) && FrameOrdered(c, done, Pop(st) + [f], |st| - 1)
    ensures StackOk(c, done, Pop(st) + [f])
  {
    var s' := Pop(st) + [f];
    forall i | 0 <= i < |s'| ensures FrameTyped(c, s', i) && FrameOrdered(c, done, s', i) {
      if i < |st| - 1 {
        assert FrameTyped(c, st, i) && FrameOrdered(c, done, st, i);
        assert s'[..i] == st[..i];
      }
    }
  }

  lemma SkipOk(c: Config, done: set<Node>, st: seq<Frame>)
    requires StackOk(c, done, st) && st != [] && !Top(st).Body? && Top(st).todo != []
    requires Top(st).todo[0] in done
    ensures StackOk(c, done, Pop(st) + [PopTodo(Top(st))])
  {
    var f := PopTodo(Top(st));
    assert FrameTyped(c, st, |st| - 1) && FrameOrdered(c, done, st, |st| - 1);
    assert (Pop(st) + [f])[..|st| - 1] == st[..|st| - 1];
    ReplaceTopOk(c, done, st, f);
  }

  lemma BeginTyped(c: Config, st: seq<Frame>, f: Frame, n: Node)
    requires WellTyped(c)
    requires StackTyped(c, st) && st != [] && !Top(st).Body? && Top(st).todo != []
    requires Top(st).todo[0] == n && n !in Work(st) && f == PopTodo(Top(st))
    ensures StackTyped(c, Pop(st) + [f])
    ensures FrameTyped(c, Pop(st) + [f] + [Before(n, Deps(c, n))], |st|)
  {
    var low := Pop(st) + [f];
    assert FrameTyped(c, st, |st| - 1);
    forall i | 0 <= i < |low| ensures FrameTyped(c, low, i) {
      assert FrameTyped(c, st, i);
      assert low[..i] == st[..i];
    }
    assert (low + [Before(n, Deps(c, n))])[..|st|] == low;
    assert st[..|st| - 1] == Pop(st);
    DepthPush(Pop(st), f, KindOf(c, n));
    WorkPush(Pop(st), f);
  }

  lemma BeginOrdered(c: Config, done: set<Node>, st: seq<Frame>, f: Frame, n: Node, i: nat)
    requires st != [] && !Top(st).Body? && Top(st).todo != []
    requires Top(st).todo[0] == n && f == PopTodo(Top(st)) && i < |st|
    requires FrameOrdered(c, done, st, i)
    ensures FrameOrdered(c, done, Pop(st) + [f] + [Before(n, Deps(c, n))], i)
  {
  }

  lemma BeginOk(c: Config, done: set<Node>, st: seq<Frame>, n: Node)
    requires WellTyped(c)
    requires StackOk(c, done, st) && st != [] && !Top(st).Body? && Top(st).todo != []
    requires Top(st).todo[0] == n && n !in Work(st)
    ensures StackOk(c, done, Pop(st) + [PopTodo(Top(st))] + [Before(n, Deps(c, n))])
  {
    var f, b := PopTodo(Top(st)), Before(n, Deps(c, n));
    var low := Pop(st) + [f];
    BeginTyped(c, st, f, n);
    forall i | 0 <= i < |low + [b]| ensures FrameTyped(c, low + [b], i) && FrameOrdered(c, done, low + [b], i) {
      if i < |low| {
        assert FrameTyped(c, low, i);
        assert (low + [b])[..i] == low[..i];
        BeginOrdered(c, done, st, f, n, i);
      }
    }
  }

  lemma StartBodyOk(c: Config, done: set<Node>, st: seq<Frame>)
    requires StackOk(c, done, st) && st != [] && Top(st).Before? && Top(st).todo == []
    ensures StackOk(c, done, Pop(st) + [Body(Top(st).n)])
  {
    assert FrameTyped(c, st, |st| - 1) && FrameOrdered(c, done, st, |st| - 1);
    assert (Pop(st) + [Body(Top(st).n)])[..|st| - 1] == st[..|st| - 1];
    ReplaceTopOk(c, done, st, Body(Top(st).n));
  }

  // ---------------------------------------------------------------------------
  // Every step keeps the invariant
  // ---------------------------------------------------------------------------

  lemma StacksKept(c: Config, s: State, t: Tid, a: Action)
    requires WellTyped(c) && Inv(c, s) && Enabled(c, s, t, a)
    ensures forall u: Tid :: StackOk(c, Next(c, s, t, a).done, Stack(Next(c, s, t, a), u))
  {
    var s', st := Next(c, s, t, a), Stack(s, t);
    assert StackOk(c, s.done, st);
    match a {
      case Enter(k, todo) => PushRunOk(c, s.done, st, k, todo);
      case Pick =>
        if Top(st).todo[0] in s.done {
          SkipOk(c, s.done, st);
        } else {
          assert !OnStack(s, t, Top(st).todo[0]);
          BeginOk(c, s.done, st, Top(st).todo[0]);
        }
      case StartBody => StartBodyOk(c, s.done, st);
      case EndBody => PopTopOk(c, s.done, s'.done, st);
      case Leave => PopTopOk(c, s.done, s.done, st);
    }
    forall u: Tid ensures StackOk(c, s'.done, Stack(s', u)) {
      if u != t {
        MoreDone(c, s.done, s'.done, Stack(s, u));
      }
    }
  }

  /** How a step changes the number of open BeginRun calls of the moving thread. */
  lemma DepthAfter(c: Config, s: State, t: Tid, a: Action, k: Kind)
    requires Enabled(c, s, t, a)
    ensures Depth(Stack(Next(c, s, t, a), t), k) == Depth(Stack(s, t), k)
              + (if a.Enter? && a.kind == k then 1 else 0)
              - (if a.Leave? && Top(Stack(s, t)).kind == k then 1 else 0)
  {
    var st := Stack(s, t);
    match a
    case Enter(j, todo) => DepthPush(st, Run(j, todo, todo), k);
    case Pick =>
      var f := PopTodo(Top(st));
      DepthPush(Pop(st), f, k);
      DepthPush(Pop(st) + [f], Before(Top(st).todo[0], Deps(c, Top(st).todo[0])), k);
    case StartBody => DepthPush(Pop(st), Body(Top(st).n), k);
    case EndBody =>
    case Leave =>
  }

  lemma CountAfter(c: Config, s: State, t: Tid, a: Action, k: Kind)
    requires Enabled(c, s, t, a)
    requires a.Leave? && Top(Stack(s, t)).kind == k ==> Count(s, k) > 0
    ensures Count(Next(c, s, t, a), k) == Count(s, k)
              + (if a.Enter? && a.kind == k then 1 else 0)
              - (if a.Leave? && Top(Stack(s, t)).kind == k then 1 else 0)
    ensures Runner(Next(c, s, t, a), k) == if a.Enter? && a.kind == k then t else Runner(s, k)
  {
  }

  lemma RunLockKeptAt(c: Config, s: State, t: Tid, a: Action, u: Tid, k: Kind)
    requires RunLockAt(s, t, k) && RunLockAt(s, u, k) && Enabled(c, s, t, a)
    ensures RunLockAt(Next(c, s, t, a), u, k)
  {
    DepthAfter(c, s, t, a, k);
    CountAfter(c, s, t, a, k);
    if u != t {
      assert Stack(Next(c, s, t, a), u) == Stack(s, u);
    }
  }

  lemma RunLockKept(c: Config, s: State, t: Tid, a: Action)
    requires RunLockOk(s) && Enabled(c, s, t, a)
    ensures RunLockOk(Next(c, s, t, a))
  {
    forall u: Tid, k: Kind ensures RunLockAt(Next(c, s, t, a), u, k) {
      assert RunLockAt(s, u, k) && RunLockAt(s, t, k);
      RunLockKeptAt(c, s, t, a, u, k);
    }
  }

  /** What the moving thread is in the middle of, before and after its step. */
  lemma WorkAfter(c: Config, s: State, t: Tid, a: Action)
    requires StackOk(c, s.done, Stack(s, t)) && Enabled(c, s, t, a)
    ensures Work(Stack(Next(c, s, t, a), t)) == Work(Stack(s, t))
              + (if a == Pick && Top(Stack(s, t)).todo[0] !in s.done then {Top(Stack(s, t)).todo[0]} else {})
              - (if a == EndBody then {Top(Stack(s, t)).n} else {})
  {
    var st := Stack(s, t);
    match a
    case Enter(j, todo) => WorkPush(st, Run(j, todo, todo));
    case Pick =>
      var f := PopTodo(Top(st));
      WorkPush(Pop(st), f);
      WorkPush(Pop(st) + [f], Before(Top(st).todo[0], Deps(c, Top(st).todo[0])));
    case StartBody => WorkPush(Pop(st), Body(Top(st).n));
    case EndBody =>
      assert FrameTyped(c, st, |st| - 1);
      assert st[..|st| - 1] == Pop(st);
    case Leave =>
  }

  /** No initializer runs on two stacks: both would hold its type's run lock. */
  lemma OneStack(c: Config, s: State, t: Tid, u: Tid, n: Node)
    requires StackOk(c, s.done, Stack(s, t)) && StackOk(c, s.done, Stack(s, u)) && RunLockOk(s)
    requires OnStack(s, t, n) && OnStack(s, u, n)
    ensures t == u
  {
    var k := KindOf(c, n);
    WorkHoldsRun(c, Stack(s, t), n);
    WorkHoldsRun(c, Stack(s, u), n);
    assert RunLockAt(s, t, k) && RunLockAt(s, u, k);
  }

  lemma MarksKeptAt(c: Config, s: State, t: Tid, a: Action, n: Node)
    requires Inv(c, s) && Enabled(c, s, t, a)
    ensures n in Next(c, s, t, a).active <==> exists u: Tid :: OnStack(Next(c, s, t, a), u, n)
  {
    var s' := Next(c, s, t, a);
    WorkAfter(c, s, t, a);
    assert forall u: Tid :: u != t ==> (OnStack(s', u, n) <==> OnStack(s, u, n));
    if n in s'.active {
      if OnStack(s, t, n) || n !in s.active {
        assert OnStack(s', t, n);
      } else {
        var u :| OnStack(s, u, n);
        assert OnStack(s', u, n);
      }
    } else if n in s.active {
      assert a == EndBody && OnStack(s, t, n);
      forall u: Tid ensures !OnStack(s', u, n) {
        if u != t && OnStack(s, u, n) {
          OneStack(c, s, t, u, n);
        }
      }
    } else {
      assert !OnStack(s, t, n) && !OnStack(s', t, n);
    }
  }

  lemma MarksKept(c: Config, s: State, t: Tid, a: Action)
    requires Inv(c, s) && Enabled(c, s, t, a)
    ensures MarksOk(Next(c, s, t, a))
  {
    forall n: Node ensures n in Next(c, s, t, a).active <==> exists u: Tid :: OnStack(Next(c, s, t, a), u, n) {
      MarksKeptAt(c, s, t, a, n);
    }
  }

  lemma LockKept(c: Config, s: State, t: Tid, a: Action)
    requires Inv(c, s) && Enabled(c, s, t, a)
    ensures LockOk(Next(c, s, t, a))
  {
    var s', st := Next(c, s, t, a), Stack(s, t);
    assert AtRest(st) <==> s.lock != Some(t);
    if a == EndBody || a == Leave {
      assert StackOk(c, s.done, st);
      assert FrameTyped(c, st, |st| - 1);
    }
    forall u: Tid ensures AtRest(Stack(s', u)) <==> s'.lock != Some(u) {
      assert AtRest(Stack(s, u)) <==> s.lock != Some(u);
    }
  }

  lemma BodiesPush(st: seq<Frame>, f: Frame)
    ensures Bodies(st + [f]) == Bodies(st) + if f.Body? then {f.n} else {}
  {
    assert Pop(st + [f]) == st;
  }

  lemma {:induction false} BodiesAreWork(st: seq<Frame>)
    ensures Bodies(st) <= Work(st)
  {
    if st != [] {
      BodiesAreWork(Pop(st));
    }
  }

  lemma TopIsNew(c: Config, st: seq<Frame>)
    requires StackTyped(c, st) && st != [] && !Top(st).Run?
    ensures Top(st).n !in Bodies(Pop(st))
  {
    assert FrameTyped(c, st, |st| - 1);
    assert st[..|st| - 1] == Pop(st);
    BodiesAreWork(Pop(st));
  }

  lemma BodiesAfter(c: Config, s: State, t: Tid, a: Action)
    requires StackOk(c, s.done, Stack(s, t)) && Enabled(c, s, t, a)
    ensures Bodies(Stack(Next(c, s, t, a), t)) == Bodies(Stack(s, t))
              + (if a == StartBody then {Top(Stack(s, t)).n} else {})
              - (if a == EndBody then {Top(Stack(s, t)).n} else {})
    ensures a == StartBody ==> Top(Stack(s, t)).n !in Bodies(Stack(s, t))
  {
    var st := Stack(s, t);
    match a
    case Enter(j, todo) => BodiesPush(st, Run(j, todo, todo));
    case Pick =>
      var f := PopTodo(Top(st));
      BodiesPush(Pop(st), f);
      BodiesPush(Pop(st) + [f], Before(Top(st).todo[0], Deps(c, Top(st).todo[0])));
    case StartBody =>
      TopIsNew(c, st);
      BodiesPush(Pop(st), Body(Top(st).n));
    case EndBody => TopIsNew(c, st);
    case Leave =>
  }

  /** A body about to start has never started before, on any thread. */
  lemma StartsOnce(c: Config, s: State, t: Tid)
    requires Inv(c, s) && Enabled(c, s, t, StartBody)
    ensures Top(Stack(s, t)).n !in s.begun
  {
    var n := Top(Stack(s, t)).n;
    assert OnStack(s, t, n);
    BodiesAfter(c, s, t, StartBody);
    forall u: Tid ensures !InBody(s, u, n) {
      BodiesAreWork(Stack(s, u));
      if OnStack(s, u, n) {
        OneStack(c, s, t, u, n);
      }
    }
  }

  lemma BegunKeptAt(c: Config, s: State, t: Tid, a: Action, n: Node)
    requires Inv(c, s) && Enabled(c, s, t, a)
    ensures var s' := Next(c, s, t, a); n in s'.begun <==> n in s'.done || exists u: Tid :: InBody(s', u, n)
  {
    var s' := Next(c, s, t, a);
    BodiesAfter(c, s, t, a);
    assert forall u: Tid :: u != t ==> (InBody(s', u, n) <==> InBody(s, u, n));
    assert n in s.begun ==> n in s'.begun;
    if n in s.begun && n !in s'.done {
      var u :| InBody(s, u, n);
      assert InBody(s', u, n);
    } else if a == StartBody && n == Top(Stack(s, t)).n {
      assert InBody(s', t, n);
    } else if a == EndBody && n == Top(Stack(s, t)).n {
      assert InBody(s, t, n);
    } else {
      assert InBody(s', t, n) <==> InBody(s, t, n);
    }
  }

  lemma BegunKept(c: Config, s: State, t: Tid, a: Action)
    requires Inv(c, s) && Enabled(c, s, t, a)
    ensures BegunOk(Next(c, s, t, a))
  {
    if a == StartBody {
      StartsOnce(c, s, t);
    }
    forall n: Node
      ensures var s' := Next(c, s, t, a); n in s'.begun <==> n in s'.done || exists u: Tid :: InBody(s', u, n)
    {
      BegunKeptAt(c, s, t, a, n);
    }
  }

  /** Every step of every thread keeps the invariant. */
  lemma StepKeepsInv(c: Config, s: State, t: Tid, a: Action)
    requires WellTyped(c) && Inv(c, s) && Enabled(c, s, t, a)
    ensures Inv(c, Next(c, s, t, a))
  {
    StacksKept(c, s, t, a);
    RunLockKept(c, s, t, a);
    MarksKept(c, s, t, a);
    LockKept(c, s, t, a);
    BegunKept(c, s, t, a);
  }

  // ---------------------------------------------------------------------------
  // Whole runs
  // ---------------------------------------------------------------------------

  datatype Step = Step(thread: Tid, action: Action)

  ghost predicate IsRun(c: Config, s: State, steps: seq<Step>)
    decreases |steps|
  {
    steps == [] ||
    (Enabled(c, s, steps[0].thread, steps[0].action) &&
     IsRun(c, Next(c, s, steps[0].thread, steps[0].action), steps[1..]))
  }

  function After(c: Config, s: State, steps: seq<Step>): State
    requires IsRun(c, s, steps)
    decreases |steps|
  {
    if steps == [] then s else After(c, Next(c, s, steps[0].thread, steps[0].action), steps[1..])
  }

  /** Whatever began had its dependencies done first. */
  ghost predicate Dependable(c: Config, s: State) {
    forall n, d :: n in s.begun && d in Deps(c, n) ==> d in s.done
  }

  /** What holds after any interleaving of any threads, started from the empty state. */
  ghost predicate Safe(c: Config, s: State) {
    // the run lock: at most one thread per type between BeginRun and EndRun
    && (forall t, u, k :: Depth(Stack(s, t), k) > 0 && Depth(Stack(s, u), k) > 0 ==> t == u)
    // run_count_ is the nesting depth of its runner
    && (forall k :: Count(s, k) > 0 ==> Depth(Stack(s, Runner(s, k)), k) == Count(s, k))
    // is_active_ is set exactly for what the holder of its type's run lock is running
    && (forall n :: n in s.active <==>
          Count(s, KindOf(c, n)) > 0 && OnStack(s, Runner(s, KindOf(c, n)), n))
    // a body has begun once at most, and only after its dependencies were done
    && (forall i, j :: 0 <= i < j < |s.begun| ==> s.begun[i] != s.begun[j])
    && Dependable(c, s)
  }

  lemma StepKeepsDependable(c: Config, s: State, t: Tid, a: Action)
    requires Inv(c, s) && Dependable(c, s) && Enabled(c, s, t, a)
    ensures Dependable(c, Next(c, s, t, a))
  {
    if a == StartBody {
      var st := Stack(s, t);
      assert StackOk(c, s.done, st);
      assert FrameOrdered(c, s.done, st, |st| - 1);
    }
  }

  lemma ActiveIsTheRunners(c: Config, s: State, n: Node)
    requires Inv(c, s)
    ensures n in s.active <==> Count(s, KindOf(c, n)) > 0 && OnStack(s, Runner(s, KindOf(c, n)), n)
  {
    var k := KindOf(c, n);
    if n in s.active {
      var t :| OnStack(s, t, n);
      assert StackOk(c, s.done, Stack(s, t));
      WorkHoldsRun(c, Stack(s, t), n);
      assert RunLockAt(s, t, k);
    }
  }

  lemma InvIsSafe(c: Config, s: State)
    requires Inv(c, s) && Dependable(c, s)
    ensures Safe(c, s)
  {
    forall t: Tid, u: Tid, k: Kind | Depth(Stack(s, t), k) > 0 && Depth(Stack(s, u), k) > 0 ensures t == u {
      assert RunLockAt(s, t, k) && RunLockAt(s, u, k);
    }
    forall k: Kind | Count(s, k) > 0 ensures Depth(Stack(s, Runner(s, k)), k) == Count(s, k) {
      assert RunLockAt(s, Runner(s, k), k);
    }
    forall n: Node ensures n in s.active <==> Count(s, KindOf(c, n)) > 0 && OnStack(s, Runner(s, KindOf(c, n)), n) {
      ActiveIsTheRunners(c, s, n);
    }
  }

  lemma {:induction false} RunKeepsInv(c: Config, s: State, steps: seq<Step>)
    requires WellTyped(c) && Inv(c, s) && Dependable(c, s) && IsRun(c, s, steps)
    ensures Inv(c, After(c, s, steps)) && Dependable(c, After(c, s, steps))
    decreases |steps|
  {
    if steps != [] {
      StepKeepsInv(c, s, steps[0].thread, steps[0].action);
      StepKeepsDependable(c, s, steps[0].thread, steps[0].action);
      RunKeepsInv(c, Next(c, s, steps[0].thread, steps[0].action), steps[1..]);
    }
  }

  lemma InitialInv(c: Config)
    ensures Inv(c, INITIAL) && Dependable(c, INITIAL)
  {
    assert forall t: Tid :: Stack(INITIAL, t) == [];
    forall t: Tid, k: Kind ensures RunLockAt(INITIAL, t, k) {}
    assert forall t: Tid, n: Node :: !OnStack(INITIAL, t, n) && !InBody(INITIAL, t, n);
  }

  lemma EveryRunIsSafe(c: Config, steps: seq<Step>)
    requires WellTyped(c) && IsRun(c, INITIAL, steps)
    ensures Safe(c, After(c, INITIAL, steps))
  {
    InitialInv(c);
    RunKeepsInv(c, INITIAL, steps);
    InvIsSafe(c, After(c, INITIAL, steps));
  }

  /**
   The cycle CHECK of RunIfNecessary never fires because of another thread: in every run,
   the initializer it fires on is one that this very thread is in the middle of.
   */
  lemma CycleCheckIsLocal(c: Config, steps: seq<Step>, t: Tid)
    requires WellTyped(c) && IsRun(c, INITIAL, steps)
    requires var s := After(c, INITIAL, steps);
             s.lock == Some(t) && Stack(s, t) != [] && !Top(Stack(s, t)).Body? && Top(Stack(s, t)).todo != []
    ensures var s := After(c, INITIAL, steps);
            CycleCheckFires(s, t) <==> Top(Stack(s, t)).todo[0] in Work(Stack(s, t))
  {
    InitialInv(c);
    RunKeepsInv(c, INITIAL, steps);
    var s := After(c, INITIAL, steps);
    var st, n := Stack(s, t), Top(Stack(s, t)).todo[0];
    assert StackOk(c, s.done, st);
    assert FrameTyped(c, st, |st| - 1);
    assert st[..|st| - 1] == Pop(st);
    assert Depth(st, KindOf(c, n)) > 0;
    assert RunLockAt(s, t, KindOf(c, n));
    ActiveIsTheRunners(c, s, n);
    assert OnStack(s, t, n) <==> n in Work(st);
  }

  /** The DCHECKs of RunIfNecessary and EndRun: whoever is inside them is its type's runner. */
  lemma InsideMeansRunner(c: Config, steps: seq<Step>, t: Tid, k: Kind)
    requires WellTyped(c) && IsRun(c, INITIAL, steps)
    requires var s := After(c, INITIAL, steps);
             && s.lock == Some(t) && Stack(s, t) != [] && !Top(Stack(s, t)).Body?
             && (if Top(Stack(s, t)).Run? then Top(Stack(s, t)).kind == k
                 else KindOf(c, Top(Stack(s, t)).n) == k)
    ensures var s := After(c, INITIAL, steps); Count(s, k) > 0 && Runner(s, k) == t
  {
    InitialInv(c);
    RunKeepsInv(c, INITIAL, steps);
    var s := After(c, INITIAL, steps);
    var st := Stack(s, t);
    assert StackOk(c, s.done, st);
    assert FrameTyped(c, st, |st| - 1);
    assert st[..|st| - 1] == Pop(st);
    assert RunLockAt(s, t, k);
  }

  /** With no cycle on its own stack, the thread that holds the lock can always take a step. */
  lemma HolderCanMove(c: Config, steps: seq<Step>, t: Tid)
    requires WellTyped(c) && IsRun(c, INITIAL, steps)
    requires After(c, INITIAL, steps).lock == Some(t) && !CycleCheckFires(After(c, INITIAL, steps), t)
    ensures exists a :: Enabled(c, After(c, INITIAL, steps), t, a) && !a.Enter?
  {
    InitialInv(c);
    RunKeepsInv(c, INITIAL, steps);
    var s := After(c, INITIAL, steps);
    var st := Stack(s, t);
    assert AtRest(st) <==> s.lock != Some(t);
    if Top(st).todo != [] {
      assert Enabled(c, s, t, Pick);
    } else if Top(st).Run? {
      assert Enabled(c, s, t, Leave);
    } else {
      assert Enabled(c, s, t, StartBody);
    }
  }

  /**
   When Require or RunInitializers returns, everything it was asked for is done, whichever
   thread has run it.
   */
  lemma ReturnsWithAllDone(c: Config, steps: seq<Step>, t: Tid)
    requires WellTyped(c) && IsRun(c, INITIAL, steps) && Enabled(c, After(c, INITIAL, steps), t, Leave)
    ensures var s := After(c, INITIAL, steps);
            forall n :: n in Top(Stack(s, t)).asked ==> n in s.done
  {
    InitialInv(c);
    RunKeepsInv(c, INITIAL, steps);
    var s := After(c, INITIAL, steps);
    var st := Stack(s, t);
    assert StackOk(c, s.done, st);
    assert FrameOrdered(c, s.done, st, |st| - 1);
  }

  // ---------------------------------------------------------------------------
  // Who may enter, and who has to wait
  // ---------------------------------------------------------------------------

  /**
   BeginRun waits for nobody but other threads: when the table lock is free, a call from
   outside or from a body gets in exactly if no other thread has a run of that type open.
   */
  lemma EntersExactly(c: Config, steps: seq<Step>, t: Tid, k: Kind, todo: seq<Node>)
    requires WellTyped(c) && IsRun(c, INITIAL, steps)
    requires var s := After(c, INITIAL, steps); s.lock == None && AtRest(Stack(s, t))
    requires forall n :: n in todo ==> KindOf(c, n) == k
    ensures var s := After(c, INITIAL, steps);
            Enabled(c, s, t, Enter(k, todo)) <==> forall u: Tid :: u != t ==> Depth(Stack(s, u), k) == 0
  {
    InitialInv(c);
    RunKeepsInv(c, INITIAL, steps);
    var s := After(c, INITIAL, steps);
    assert RunLockAt(s, Runner(s, k), k);
    forall u: Tid | u != t && (Count(s, k) == 0 || Runner(s, k) == t) ensures Depth(Stack(s, u), k) == 0 {
      assert RunLockAt(s, u, k);
    }
  }

  /** A body may Require more of its own type at once, and that run is one level deeper. */
  lemma BodyEntersAgain(c: Config, steps: seq<Step>, t: Tid, n: Node, todo: seq<Node>)
    requires WellTyped(c) && IsRun(c, INITIAL, steps)
    requires var s := After(c, INITIAL, steps);
             s.lock == None && Stack(s, t) != [] && Top(Stack(s, t)) == Body(n)
    requires forall m :: m in todo ==> KindOf(c, m) == KindOf(c, n)
    ensures var s, k := After(c, INITIAL, steps), KindOf(c, n);
            && Enabled(c, s, t, Enter(k, todo))
            && 2 <= Depth(Stack(Next(c, s, t, Enter(k, todo)), t), k) == Depth(Stack(s, t), k) + 1
  {
    InitialInv(c);
    RunKeepsInv(c, INITIAL, steps);
    var s, k := After(c, INITIAL, steps), KindOf(c, n);
    var st := Stack(s, t);
    assert StackOk(c, s.done, st);
    WorkHoldsRun(c, st, n);
    assert RunLockAt(s, t, k);
    DepthPush(st, Run(k, todo, todo), k);
  }

  lemma Then(c: Config, s: State, t: Tid, a: Action, rest: seq<Step>)
    requires Enabled(c, s, t, a) && IsRun(c, Next(c, s, t, a), rest)
    ensures IsRun(c, s, [Step(t, a)] + rest)
    ensures After(c, s, [Step(t, a)] + rest) == After(c, Next(c, s, t, a), rest)
  {
    assert ([Step(t, a)] + rest)[1..] == rest;
  }

  lemma PickOfOne(c: Config, s: State, t: Tid, n: Node)
    requires s.lock == Some(t) && Stack(s, t) == [Run(KindOf(c, n), [n], [n])]
    requires n !in s.active && n !in s.done && Deps(c, n) == []
    ensures Enabled(c, s, t, Pick)
    ensures Stack(Next(c, s, t, Pick), t) == [Run(KindOf(c, n), [n], []), Before(n, [])]
  {
    var f := Top(Stack(s, t));
    assert f == Run(KindOf(c, n), [n], [n]) && PopTodo(f) == Run(KindOf(c, n), [n], []);
    assert Pop(Stack(s, t)) == [];
  }

  /** A thread takes an initializer without dependencies as far as its body. */
  lemma ReachesBody(c: Config, s: State, t: Tid, n: Node) returns (s': State)
    requires s.lock == None && Stack(s, t) == [] && Count(s, KindOf(c, n)) == 0
    requires n !in s.active && n !in s.done && Deps(c, n) == []
    ensures forall rest :: IsRun(c, s', rest) ==>
              && IsRun(c, s, IntoBody(c, t, n) + rest)
              && After(c, s, IntoBody(c, t, n) + rest) == After(c, s', rest)
    ensures s'.lock == None && Stack(s', t) == [Run(KindOf(c, n), [n], []), Body(n)] && Runner(s', KindOf(c, n)) == t
    ensures s'.active == s.active + {n} && s'.done == s.done
    ensures forall v: Tid :: v != t ==> Stack(s', v) == Stack(s, v)
    ensures forall k: Kind :: k != KindOf(c, n) ==> Count(s', k) == Count(s, k)
  {
    var k := KindOf(c, n);
    var s1 := Next(c, s, t, Enter(k, [n]));
    PickOfOne(c, s1, t, n);
    var s2 := Next(c, s1, t, Pick);
    s' := Next(c, s2, t, StartBody);
    forall rest | IsRun(c, s', rest)
      ensures IsRun(c, s, IntoBody(c, t, n) + rest) && After(c, s, IntoBody(c, t, n) + rest) == After(c, s', rest)
    {
      IntoBodyRuns(c, s, t, n, s1, s2, s', rest);
    }
  }

  function IntoBody(c: Config, t: Tid, n: Node): seq<Step> {
    [Step(t, Enter(KindOf(c, n), [n])), Step(t, Pick), Step(t, StartBody)]
  }

  lemma IntoBodyRuns(c: Config, s: State, t: Tid, n: Node, s1: State, s2: State, s3: State, rest: seq<Step>)
    requires Enabled(c, s, t, Enter(KindOf(c, n), [n])) && s1 == Next(c, s, t, Enter(KindOf(c, n), [n]))
    requires Enabled(c, s1, t, Pick) && s2 == Next(c, s1, t, Pick)
    requires Enabled(c, s2, t, StartBody) && s3 == Next(c, s2, t, StartBody) && IsRun(c, s3, rest)
    ensures IsRun(c, s, IntoBody(c, t, n) + rest) && After(c, s, IntoBody(c, t, n) + rest) == After(c, s3, rest)
  {
    Then(c, s2, t, StartBody, rest);
    Then(c, s1, t, Pick, [Step(t, StartBody)] + rest);
    Then(c, s, t, Enter(KindOf(c, n), [n]), [Step(t, Pick)] + ([Step(t, StartBody)] + rest));
    assert [Step(t, Enter(KindOf(c, n), [n]))] + ([Step(t, Pick)] + ([Step(t, StartBody)] + rest))
        == IntoBody(c, t, n) + rest;
  }

  lemma BodyOnTop(n: Node, k: Kind, st: seq<Frame>)
    requires st == [Run(k, [n], []), Body(n)]
    ensures Depth(st, k) == 1 && AtRest(st)
  {
    DepthPush([], Run(k, [n], []), k);
    DepthPush([Run(k, [n], [])], Body(n), k);
    assert st == [Run(k, [n], [])] + [Body(n)];
  }

  /** Nesting does happen: from the start, a body that Requires another initializer of its type. */
  lemma NestedRequire(c: Config, t: Tid, n: Node, m: Node)
    requires Deps(c, n) == [] && KindOf(c, m) == KindOf(c, n)
    ensures var k := KindOf(c, n);
            var steps := IntoBody(c, t, n) + ([Step(t, Enter(k, [m]))] + []);
            && IsRun(c, INITIAL, steps)
            && Depth(Stack(After(c, INITIAL, steps), t), k) == 2
            && Stack(After(c, INITIAL, steps), t) == [Run(k, [n], []), Body(n), Run(k, [m], [m])]
  {
    var k := KindOf(c, n);
    var s := ReachesBody(c, INITIAL, t, n);
    BodyOnTop(n, k, Stack(s, t));
    DepthPush(Stack(s, t), Run(k, [m], [m]), k);
    Then(c, s, t, Enter(k, [m]), []);
  }

  /**
   The scheduler never deadlocks by itself: while any call is in progress and the holder of
   the table lock, if any, has met no cycle, some thread can go on without a new call.
   */
  lemma SomebodyCanMove(c: Config, steps: seq<Step>, t: Tid) returns (u: Tid, a: Action)
    requires WellTyped(c) && IsRun(c, INITIAL, steps) && Stack(After(c, INITIAL, steps), t) != []
    requires forall v: Tid :: !CycleCheckFires(After(c, INITIAL, steps), v)
    ensures Enabled(c, After(c, INITIAL, steps), u, a) && !a.Enter?
  {
    var s := After(c, INITIAL, steps);
    if s.lock == None {
      InitialInv(c);
      RunKeepsInv(c, INITIAL, steps);
      assert AtRest(Stack(s, t)) <==> s.lock != Some(t);
      u, a := t, EndBody;
    } else {
      u := s.lock.value;
      HolderCanMove(c, steps, u);
      a :| Enabled(c, s, u, a) && !a.Enter?;
    }
  }

  /** Two threads that hold a type each can neither of them enter the other's. */
  lemma MutualRequireBlocks(c: Config, steps: seq<Step>, t: Tid, k: Kind, u: Tid, l: Kind, todo: seq<Node>)
    requires WellTyped(c) && IsRun(c, INITIAL, steps) && t != u
    requires var s := After(c, INITIAL, steps); Depth(Stack(s, t), k) > 0 && Depth(Stack(s, u), l) > 0
    ensures var s := After(c, INITIAL, steps);
            k != l && !Enabled(c, s, t, Enter(l, todo)) && !Enabled(c, s, u, Enter(k, todo))
  {
    InitialInv(c);
    RunKeepsInv(c, INITIAL, steps);
    var s := After(c, INITIAL, steps);
    assert RunLockAt(s, t, k) && RunLockAt(s, u, l) && RunLockAt(s, t, l) && RunLockAt(s, u, k);
  }

  /**
   So bodies that Require across types can deadlock: from the start, two threads reach bodies
   of different types, and then neither can enter the other's type.
   */
  lemma MutualRequireHappens(c: Config, t: Tid, n: Node, u: Tid, m: Node)
    requires WellTyped(c) && t != u && KindOf(c, n) != KindOf(c, m) && Deps(c, n) == [] == Deps(c, m)
    ensures var steps := IntoBody(c, t, n) + (IntoBody(c, u, m) + []);
            && IsRun(c, INITIAL, steps)
            && var s := After(c, INITIAL, steps);
            && s.lock == None && AtRest(Stack(s, t)) && AtRest(Stack(s, u))
            && !Enabled(c, s, t, Enter(KindOf(c, m), [m])) && !Enabled(c, s, u, Enter(KindOf(c, n), [n]))
  {
    var steps := IntoBody(c, t, n) + (IntoBody(c, u, m) + []);
    var s1 := ReachesBody(c, INITIAL, t, n);
    var s2 := ReachesBody(c, s1, u, m);
    assert IsRun(c, s2, []);
    assert After(c, INITIAL, steps) == s2;
    BodyOnTop(n, KindOf(c, n), Stack(s2, t));
    BodyOnTop(m, KindOf(c, m), Stack(s2, u));
    MutualRequireBlocks(c, steps, t, KindOf(c, n), u, KindOf(c, m), [m]);
    MutualRequireBlocks(c, steps, t, KindOf(c, n), u, KindOf(c, m), [n]);
  }
}
