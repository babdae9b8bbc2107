/**
 Running module initializers: the depth-first walk of RunIfNecessary, RunAll and
 Require over declared dependencies and over the Require calls that initializer bodies
 make while they run.

 A node is an initializer of some type. Its declared dependencies are of its own type
 and are taken in name order; its body is the sequence of initializers, of any type,
 that it requires. Registration is over before anything runs.
 */
module InitSchedule {

  type Node = nat

  datatype Graph = Graph(nodes: set<Node>, deps: map<Node, seq<Node>>, body: map<Node, seq<Node>>)

  /** Every constructed initializer has its dependencies and its body on record. */
  ghost predicate WellFormed(g: Graph) {
    g.deps.Keys == g.nodes && g.body.Keys == g.nodes
  }

  datatype Event = Begin(n: Node) | End(n: Node)

  /** Which initializers are done, and when bodies began and ended. */
  datatype Progress = Progress(done: set<Node>, log: seq<Event>)

  datatype Outcome = Finished(p: Progress) | CycleCheck(at: Node) | UnknownCheck(at: Node)

  ghost function Left(g: Graph, stack: seq<Node>): set<Node> {
    set n | n in g.nodes && n !in stack
  }

  lemma PushShrinks(g: Graph, stack: seq<Node>, n: Node)
    requires n in g.nodes && n !in stack
    ensures Left(g, stack + [n]) < Left(g, stack)
  {
    assert n in Left(g, stack) && n !in Left(g, stack + [n]);
  }

  /** RunIfNecessary, with the initializers being run as a stack. */
  ghost function Visit(g: Graph, p: Progress, stack: seq<Node>, n: Node): Outcome
    requires WellFormed(g)
    decreases Left(g, stack), 0
  {
    if n in stack then CycleCheck(n)
    else if n in p.done then Finished(p)
    else if n !in g.nodes then UnknownCheck(n)
    else
      PushShrinks(g, stack, n);
      var before := VisitAll(g, p, stack + [n], g.deps[n]);
      if !before.Finished? then before
      else
        var during := VisitAll(g, Log(before.p, Begin(n)), stack + [n], g.body[n]);
        if !during.Finished? then during
        else Finished(Progress(during.p.done + {n}, during.p.log + [End(n)]))
  }

  ghost function VisitAll(g: Graph, p: Progress, stack: seq<Node>, ns: seq<Node>): Outcome
    requires WellFormed(g)
    decreases Left(g, stack), |ns|
  {
    if ns == [] then Finished(p)
    else
      var first := Visit(g, p, stack, ns[0]);
      if !first.Finished? then first else VisitAll(g, first.p, stack, ns[1..])
  }

  function Log(p: Progress, e: Event): Progress {
    p.(log := p.log + [e])
  }

  // ---------------------------------------------------------------------------
  // Paths and cycles of the combined graph
  // ---------------------------------------------------------------------------

  /** b runs because of a: it is declared before a, or a's body requires it. */
  ghost predicate Edge(g: Graph, a: Node, b: Node)
    requires WellFormed(g)
  {
    a in g.nodes && (b in g.deps[a] || b in g.body[a])
  }

  ghost predicate IsPath(g: Graph, p: seq<Node>)
    requires WellFormed(g)
  {
    |p| > 0 && forall i :: 0 <= i < |p| - 1 ==> Edge(g, p[i], p[i + 1])
  }

  ghost predicate IsCycle(g: Graph, c: seq<Node>)
    requires WellFormed(g)
  {
    IsPath(g, c) && Edge(g, c[|c| - 1], c[0])
  }

  ghost predicate Reaches(g: Graph, roots: seq<Node>, n: Node)
    requires WellFormed(g)
  {
    exists p :: IsPath(g, p) && p[0] in roots && p[|p| - 1] == n
  }

  // ---------------------------------------------------------------------------
  // The log
  // ---------------------------------------------------------------------------

  /** The event at position i is new, and everything it must wait for came before it. */
  ghost predicate InOrder(g: Graph, log: seq<Event>, i: nat)
    requires WellFormed(g) && i < |log|
  {
    && log[i].n in g.nodes
    && log[i] !in log[..i]
    && (log[i].Begin? ==> forall d :: d in g.deps[log[i].n] ==> End(d) in log[..i])
    && (log[i].End? ==>
          && Begin(log[i].n) in log[..i]
          && forall m :: Edge(g, log[i].n, m) ==> End(m) in log[..i])
  }

  /** Every body began at most once and in order, and the done ones are those that ended. */
  ghost predicate Sound(g: Graph, p: Progress)
    requires WellFormed(g)
  {
    && (forall i :: 0 <= i < |p.log| ==> InOrder(g, p.log, i))
    && (forall n :: n in p.done <==> End(n) in p.log)
  }

  /** Moreover, what began is done or still on the stack. */
  ghost predicate Orderly(g: Graph, p: Progress, stack: seq<Node>)
    requires WellFormed(g)
  {
    && Sound(g, p)
    && (forall n :: n in stack ==> n !in p.done)
    && (forall n :: Begin(n) in p.log ==> n in p.done || n in stack)
  }

  lemma OrderlyLog(g: Graph, p: Progress, stack: seq<Node>, e: Event)
    requires WellFormed(g) && Orderly(g, p, stack)
    requires e.n in g.nodes && e !in p.log
    requires e.Begin? ==> forall d :: d in g.deps[e.n] ==> End(d) in p.log
    requires e.End? ==> Begin(e.n) in p.log && forall m :: Edge(g, e.n, m) ==> End(m) in p.log
    ensures forall i :: 0 <= i < |Log(p, e).log| ==> InOrder(g, Log(p, e).log, i)
  {
    var log := p.log + [e];
    forall i | 0 <= i < |log| ensures InOrder(g, log, i) {
      assert log[..|p.log|] == p.log;
      if i < |p.log| {
        assert InOrder(g, p.log, i);
        assert log[..i] == p.log[..i];
      }
    }
  }

  /** A visit only adds to the log, and no second beginning of what is already running. */
  ghost predicate Grew(p: Progress, p': Progress, stack: seq<Node>) {
    && p.done <= p'.done && p.log <= p'.log
    && forall n :: n in stack && Begin(n) in p'.log ==> Begin(n) in p.log
  }

  lemma {:induction false} VisitOrderly(g: Graph, p: Progress, stack: seq<Node>, n: Node)
    requires WellFormed(g) && Orderly(g, p, stack)
    ensures var r := Visit(g, p, stack, n);
            r.Finished? ==> Orderly(g, r.p, stack) && Grew(p, r.p, stack) && n in r.p.done
    decreases Left(g, stack), 0
  {
    if n !in stack && n !in p.done && n in g.nodes {
      PushShrinks(g, stack, n);
      var inner := stack + [n];
      assert forall m :: m in stack ==> m in inner;
      assert Orderly(g, p, inner);
      VisitAllOrderly(g, p, inner, g.deps[n]);
      var before := VisitAll(g, p, inner, g.deps[n]);
      if before.Finished? {
        BeginOrderly(g, p, before.p, stack, n);
        var begun := Log(before.p, Begin(n));
        VisitAllOrderly(g, begun, inner, g.body[n]);
        var during := VisitAll(g, begun, inner, g.body[n]);
        if during.Finished? {
          EndOrderly(g, begun, during.p, stack, n);
        }
      }
    }
  }

  lemma BeginOrderly(g: Graph, p: Progress, q: Progress, stack: seq<Node>, n: Node)
    requires WellFormed(g) && Orderly(g, p, stack) && n in g.nodes && n !in stack && n !in p.done
    requires Orderly(g, q, stack + [n]) && Grew(p, q, stack + [n]) && forall d :: d in g.deps[n] ==> d in q.done
    ensures Orderly(g, Log(q, Begin(n)), stack + [n])
  {
    assert n in stack + [n];
    OrderlyLog(g, q, stack + [n], Begin(n));
  }

  lemma EndOrderly(g: Graph, begun: Progress, q: Progress, stack: seq<Node>, n: Node)
    requires WellFormed(g) && n in g.nodes && n !in stack
    requires Orderly(g, q, stack + [n]) && Grew(begun, q, stack + [n]) && Begin(n) in begun.log
    requires forall m :: Edge(g, n, m) ==> m in q.done
    ensures Orderly(g, Progress(q.done + {n}, q.log + [End(n)]), stack)
  {
    assert n in stack + [n];
    OrderlyLog(g, q, stack + [n], End(n));
    assert Log(q, End(n)).log == q.log + [End(n)];
  }

  lemma {:induction false} VisitAllOrderly(g: Graph, p: Progress, stack: seq<Node>, ns: seq<Node>)
    requires WellFormed(g) && Orderly(g, p, stack)
    ensures var r := VisitAll(g, p, stack, ns);
            r.Finished? ==> Orderly(g, r.p, stack) && Grew(p, r.p, stack) && forall n :: n in ns ==> n in r.p.done
    decreases Left(g, stack), |ns|
  {
    if ns != [] {
      VisitOrderly(g, p, stack, ns[0]);
      var first := Visit(g, p, stack, ns[0]);
      if first.Finished? {
        VisitAllOrderly(g, first.p, stack, ns[1..]);
        assert forall n :: n in ns ==> n == ns[0] || n in ns[1..];
      }
    }
  }

  // ---------------------------------------------------------------------------
  // Why a run stops
  // ---------------------------------------------------------------------------

  /** A walk that ends where the run stopped: on itself, or at something never constructed. */
  ghost predicate Explains(g: Graph, r: Outcome, walk: seq<Node>)
    requires WellFormed(g) && !r.Finished?
  {
    && IsPath(g, walk) && walk[|walk| - 1] == r.at
    && (r.CycleCheck? ==> r.at in walk[..|walk| - 1])
    && (r.UnknownCheck? ==> r.at !in g.nodes)
  }

  lemma {:induction false} VisitStops(g: Graph, p: Progress, stack: seq<Node>, n: Node) returns (walk: seq<Node>)
    requires WellFormed(g) && IsPath(g, stack + [n]) && !Visit(g, p, stack, n).Finished?
    ensures Explains(g, Visit(g, p, stack, n), walk) && walk[0] == (stack + [n])[0]
    decreases Left(g, stack), 0
  {
    walk := stack + [n];
    if n in stack {
      assert walk[..|walk| - 1] == stack;
    } else if n in g.nodes {
      PushShrinks(g, stack, n);
      var inner := stack + [n];
      var before := VisitAll(g, p, inner, g.deps[n]);
      if before.Finished? {
        walk := VisitAllStops(g, Log(before.p, Begin(n)), inner, g.body[n]);
      } else {
        walk := VisitAllStops(g, p, inner, g.deps[n]);
      }
    }
  }

  lemma {:induction false} VisitAllStops(g: Graph, p: Progress, stack: seq<Node>, ns: seq<Node>)
    returns (walk: seq<Node>)
    requires WellFormed(g) && !VisitAll(g, p, stack, ns).Finished?
    requires stack != [] ==> IsPath(g, stack) && forall n :: n in ns ==> Edge(g, stack[|stack| - 1], n)
    ensures Explains(g, VisitAll(g, p, stack, ns), walk)
    ensures if stack == [] then walk[0] in ns else walk[0] == stack[0]
    decreases Left(g, stack), |ns|
  {
    var first := Visit(g, p, stack, ns[0]);
    assert forall n :: n in ns[1..] ==> n in ns;
    if first.Finished? {
      walk := VisitAllStops(g, first.p, stack, ns[1..]);
    } else {
      var longer := stack + [ns[0]];
      forall i | 0 <= i < |longer| - 1 ensures Edge(g, longer[i], longer[i + 1]) {
        if i < |stack| - 1 {
          assert Edge(g, stack[i], stack[i + 1]);
        } else {
          assert ns[0] in ns;
        }
      }
      walk := VisitStops(g, p, stack, ns[0]);
    }
  }

  // ---------------------------------------------------------------------------
  // What is done is closed and acyclic
  // ---------------------------------------------------------------------------

  ghost function Position(log: seq<Event>, e: Event): (i: nat)
    requires e in log
    ensures i < |log| && log[i] == e && e !in log[..i]
  {
    if log[0] == e then 0
    else
      var i := 1 + Position(log[1..], e);
      assert log[..i] == [log[0]] + log[1..][..i - 1];
      i
  }

  lemma EdgeGoesBack(g: Graph, p: Progress, a: Node, b: Node)
    requires WellFormed(g) && Sound(g, p) && a in p.done && Edge(g, a, b)
    ensures b in p.done && Position(p.log, End(b)) < Position(p.log, End(a))
  {
    var i := Position(p.log, End(a));
    assert InOrder(g, p.log, i);
    assert End(b) in p.log[..i];
    var k :| 0 <= k < i && p.log[k] == End(b);
    var j := Position(p.log, End(b));
    assert j <= k;
  }

  lemma {:induction false} PathGoesBack(g: Graph, p: Progress, path: seq<Node>)
    requires WellFormed(g) && Sound(g, p) && IsPath(g, path) && path[0] in p.done
    ensures var last := path[|path| - 1];
            last in p.done && Position(p.log, End(last)) <= Position(p.log, End(path[0]))
    decreases |path|
  {
    if |path| > 1 {
      assert Edge(g, path[0], path[1]);
      EdgeGoesBack(g, p, path[0], path[1]);
      forall i | 0 <= i < |path[1..]| - 1 ensures Edge(g, path[1..][i], path[1..][i + 1]) {
        assert Edge(g, path[i + 1], path[i + 2]);
      }
      PathGoesBack(g, p, path[1..]);
    }
  }

  lemma NoCycleIsDone(g: Graph, p: Progress, c: seq<Node>)
    requires WellFormed(g) && Sound(g, p) && IsCycle(g, c)
    ensures c[0] !in p.done
  {
    if c[0] in p.done {
      PathGoesBack(g, p, c);
      EdgeGoesBack(g, p, c[|c| - 1], c[0]);
    }
  }

  lemma WalkClosesCycle(g: Graph, roots: seq<Node>, r: Outcome, walk: seq<Node>)
    requires WellFormed(g) && r.CycleCheck? && Explains(g, r, walk) && walk[0] in roots
    ensures exists c :: IsCycle(g, c) && Reaches(g, roots, c[0])
  {
    var k := |walk| - 1;
    var i :| 0 <= i < k && walk[i] == r.at;
    var c := walk[i..k];
    forall j | 0 <= j < |c| - 1 ensures Edge(g, c[j], c[j + 1]) {
      assert Edge(g, walk[i + j], walk[i + j + 1]);
    }
    assert Edge(g, walk[k - 1], walk[k]);
    assert IsCycle(g, c);
    var approach := walk[..i + 1];
    forall j | 0 <= j < |approach| - 1 ensures Edge(g, approach[j], approach[j + 1]) {
      assert Edge(g, walk[j], walk[j + 1]);
    }
    assert IsPath(g, approach) && approach[0] in roots && approach[|approach| - 1] == c[0];
  }

  ghost predicate ReachableCycle(g: Graph, roots: seq<Node>)
    requires WellFormed(g)
  {
    exists c :: IsCycle(g, c) && Reaches(g, roots, c[0])
  }

  ghost predicate AllKnown(g: Graph, roots: seq<Node>)
    requires WellFormed(g)
  {
    forall n :: Reaches(g, roots, n) ==> n in g.nodes
  }

  lemma ReachableIsDone(g: Graph, p: Progress, roots: seq<Node>, n: Node)
    requires WellFormed(g) && Sound(g, p) && Reaches(g, roots, n) && forall r :: r in roots ==> r in p.done
    ensures n in p.done && n in g.nodes
  {
    var path :| IsPath(g, path) && path[0] in roots && path[|path| - 1] == n;
    PathGoesBack(g, p, path);
    assert InOrder(g, p.log, Position(p.log, End(n)));
  }

  /**
   RunAll and Require, for any dependencies and any Require calls in bodies, from any
   state earlier calls can leave: the run finishes exactly when the graph reachable from
   its roots has no cycle and names only constructed initializers; with everything
   constructed it stops at the cycle CHECK exactly when there is such a cycle.
   */
  lemma RunStopsExactly(g: Graph, p: Progress, roots: seq<Node>)
    requires WellFormed(g) && Orderly(g, p, [])
    ensures var r := VisitAll(g, p, [], roots);
            && (r.Finished? <==> !ReachableCycle(g, roots) && AllKnown(g, roots))
            && (AllKnown(g, roots) ==> (r.CycleCheck? <==> ReachableCycle(g, roots)))
  {
    var r := VisitAll(g, p, [], roots);
    if r.Finished? {
      VisitAllOrderly(g, p, [], roots);
      forall n | Reaches(g, roots, n) ensures n in g.nodes && n in r.p.done {
        ReachableIsDone(g, r.p, roots, n);
      }
      forall c | IsCycle(g, c) ensures c[0] !in r.p.done {
        NoCycleIsDone(g, r.p, c);
      }
    } else {
      var walk := VisitAllStops(g, p, [], roots);
      if r.CycleCheck? {
        WalkClosesCycle(g, roots, r, walk);
      } else {
        assert Reaches(g, roots, r.at);
      }
    }
  }

  lemma {:induction false} CountsOnce(log: seq<Event>, e: Event)
    requires forall i :: 0 <= i < |log| ==> log[i] !in log[..i]
    ensures multiset(log)[e] == if e in log then 1 else 0
  {
    if log != [] {
      var front, last := log[..|log| - 1], log[|log| - 1];
      assert log == front + [last];
      forall i | 0 <= i < |front| ensures front[i] !in front[..i] {
        assert front[..i] == log[..i];
      }
      CountsOnce(front, e);
    }
  }

  ghost predicate Precedes(log: seq<Event>, a: Event, b: Event) {
    a in log && b in log && Position(log, a) < Position(log, b)
  }

  /**
   When a run finishes, everything reachable is done; of each initializer done, now or
   earlier, the body began once and ended once, after all transitive dependencies ended.
   */
  lemma FinishedRun(g: Graph, p: Progress, roots: seq<Node>, n: Node, m: Node)
    requires WellFormed(g) && Orderly(g, p, []) && VisitAll(g, p, [], roots).Finished?
    requires n in VisitAll(g, p, [], roots).p.done
    ensures var q := VisitAll(g, p, [], roots).p;
            && n in g.nodes
            && (forall x :: Reaches(g, roots, x) ==> x in q.done)
            && multiset(q.log)[Begin(n)] == 1 && multiset(q.log)[End(n)] == 1
            && Precedes(q.log, Begin(n), End(n))
            && (Reaches(g, [n], m) && m != n ==> Precedes(q.log, End(m), End(n)))
            && (Reaches(g, g.deps[n], m) ==> Precedes(q.log, End(m), Begin(n)))
  {
    VisitAllOrderly(g, p, [], roots);
    var q := VisitAll(g, p, [], roots).p;
    forall x | Reaches(g, roots, x) ensures x in q.done { ReachableIsDone(g, q, roots, x); }
    var e := Position(q.log, End(n));
    assert InOrder(g, q.log, e);
    forall i | 0 <= i < |q.log| ensures q.log[i] !in q.log[..i] { assert InOrder(g, q.log, i); }
    CountsOnce(q.log, Begin(n));
    CountsOnce(q.log, End(n));
    var b := Position(q.log, Begin(n));
    var k :| 0 <= k < e && q.log[k] == Begin(n);
    assert b <= k;
    if Reaches(g, [n], m) && m != n { DescendantEndsEarlier(g, q, n, m); }
    if Reaches(g, g.deps[n], m) { DependencyEndsBefore(g, q, n, m); }
  }

  lemma DescendantEndsEarlier(g: Graph, q: Progress, n: Node, m: Node)
    requires WellFormed(g) && Sound(g, q) && n in q.done && Reaches(g, [n], m) && m != n
    ensures m in q.done && Position(q.log, End(m)) < Position(q.log, End(n))
  {
    var path :| IsPath(g, path) && path[0] in [n] && path[|path| - 1] == m;
    PathGoesBack(g, q, path);
  }

  lemma DependencyEndsBefore(g: Graph, q: Progress, n: Node, m: Node)
    requires WellFormed(g) && Sound(g, q) && n in q.done && n in g.nodes && Reaches(g, g.deps[n], m)
    requires Begin(n) in q.log
    ensures m in q.done && Position(q.log, End(m)) < Position(q.log, Begin(n))
  {
    var path :| IsPath(g, path) && path[0] in g.deps[n] && path[|path| - 1] == m;
    var b := Position(q.log, Begin(n));
    assert InOrder(g, q.log, b);
    assert End(path[0]) in q.log[..b];
    var k :| 0 <= k < b && q.log[k] == End(path[0]);
    assert Position(q.log, End(path[0])) <= k;
    PathGoesBack(g, q, path);
  }

  /** Once everything named is done, further calls change nothing and run nothing. */
  lemma {:induction false} LaterCallsAreNoOps(g: Graph, p: Progress, ns: seq<Node>)
    requires WellFormed(g) && forall n :: n in ns ==> n in p.done
    ensures VisitAll(g, p, [], ns) == Finished(p)
    decreases |ns|
  {
    if ns != [] {
      LaterCallsAreNoOps(g, p, ns[1..]);
    }
  }

  // ---------------------------------------------------------------------------
  // The scheduler
  // ---------------------------------------------------------------------------

  /**
   The initializers of all types: what TypeData and the done_ and is_active_ marks hold.
   order lists, for each type, its registered initializers in name order.
   */
  class Scheduler {
    const g: Graph
    const order: map<string, seq<Node>>
    var table: map<Node, seq<Node>>   // what is left of the registration tables
    var done: set<Node>
    var active: set<Node>
    var log: seq<Event>
    ghost var stack: seq<Node>

    ghost predicate Valid()
      reads this
    {
      && WellFormed(g)
      && Orderly(g, Now(), stack)
      && (forall n :: n in active <==> n in stack)
      && (forall n :: n in table ==> n in g.nodes && table[n] == g.deps[n])
      && (forall n :: n in g.nodes ==> n in table || n in done)
    }

    function Now(): Progress
      reads this
    {
      Progress(done, log)
    }

    constructor (g: Graph, order: map<string, seq<Node>>)
      requires WellFormed(g)
      ensures Valid() && stack == [] && this.g == g && this.order == order && Now() == Progress({}, [])
    {
      this.g, this.order := g, order;
      table, done, active, log, stack := g.deps, {}, {}, [], [];
    }

    /** Runs an initializer and all it needs, unless it is done. */
    method RunIfNecessary(n: Node) returns (r: Outcome)
      requires Valid()
      modifies this
      ensures r == Visit(g, old(Now()), old(stack), n)
      ensures r.Finished? ==> Valid() && Now() == r.p && stack == old(stack) && table == old(table)
      decreases Left(g, stack), 2
    {
      if n in active {
        return CycleCheck(n);
      }
      if n in done {
        return Finished(Now());
      }
      if n !in table {
        return UnknownCheck(n);
      }
      PushShrinks(g, stack, n);
      r := RunDependencies(n);
      if !r.Finished? {
        return;
      }
      BeginBody(n, old(Now()), old(stack));
      r := RunBody(n);
      if !r.Finished? {
        return;
      }
      Leave(n, old(stack));
      r := Finished(Now());
    }

    /** Marks the initializer active and runs what was declared to come before it. */
    method RunDependencies(n: Node) returns (r: Outcome)
      requires Valid() && n !in stack && n !in done && n in table
      modifies this
      ensures r == VisitAll(g, old(Now()), old(stack) + [n], g.deps[n])
      ensures r.Finished? ==> Valid() && Now() == r.p && stack == old(stack) + [n] && table == old(table)
      ensures r.Finished? ==> Grew(old(Now()), Now(), stack) && forall d :: d in g.deps[n] ==> d in done
      decreases Left(g, stack), 1
    {
      PushShrinks(g, stack, n);
      Enter(n);
      r := RunEach(table[n]);
    }

    /** Runs the body, as the Require calls it makes. */
    method RunBody(n: Node) returns (r: Outcome)
      requires Valid() && n in g.nodes && Begin(n) in log && forall d :: d in g.deps[n] ==> d in done
      modifies this
      ensures r == VisitAll(g, old(Now()), old(stack), g.body[n])
      ensures r.Finished? ==> Valid() && Now() == r.p && stack == old(stack) && table == old(table)
      ensures r.Finished? ==> Begin(n) in log && forall m :: Edge(g, n, m) ==> m in done
      decreases Left(g, stack), 4
    {
      r := RunEach(g.body[n]);
    }

    method BeginBody(n: Node, ghost before: Progress, ghost outer: seq<Node>)
      requires Valid() && stack == outer + [n] && n in g.nodes && n !in outer && n !in before.done
      requires Orderly(g, before, outer) && Grew(before, Now(), stack) && forall d :: d in g.deps[n] ==> d in done
      modifies this`log
      ensures Valid() && Now() == Log(old(Now()), Begin(n))
    {
      BeginOrderly(g, before, Now(), outer, n);
      log := log + [Begin(n)];
    }

    method Leave(n: Node, ghost outer: seq<Node>)
      requires Valid() && stack == outer + [n] && n in g.nodes && n !in outer
      requires Begin(n) in log && forall m :: Edge(g, n, m) ==> m in done
      modifies this`active, this`done, this`log, this`stack
      ensures Valid() && stack == outer
      ensures Now() == Progress(old(done) + {n}, old(log) + [End(n)])
    {
      EndOrderly(g, Now(), Now(), outer, n);
      active := active - {n};
      done := done + {n};
      log := log + [End(n)];
      stack := outer;
    }

    method Enter(n: Node)
      requires Valid() && n !in stack && n !in done && n in g.nodes
      modifies this`active, this`stack
      ensures Valid() && stack == old(stack) + [n]
    {
      active := active + {n};
      stack := stack + [n];
    }

    /** The loop over dependencies, over the Require calls of a body, or over a table. */
    method RunEach(ns: seq<Node>) returns (r: Outcome)
      requires Valid()
      modifies this
      ensures r == VisitAll(g, old(Now()), old(stack), ns)
      ensures r.Finished? ==> Valid() && Now() == r.p && stack == old(stack) && table == old(table)
      ensures r.Finished? ==> Grew(old(Now()), Now(), stack) && forall n :: n in ns ==> n in done
      decreases Left(g, stack), 3
    {
      VisitAllOrderly(g, Now(), stack, ns);
      for i := 0 to |ns|
        invariant Valid() && stack == old(stack) && table == old(table)
        invariant VisitAll(g, old(Now()), old(stack), ns) == VisitAll(g, Now(), stack, ns[i..])
      {
        assert ns[i..][1..] == ns[i + 1..];
        r := RunIfNecessary(ns[i]);
        if !r.Finished? {
          return;
        }
      }
      r := Finished(Now());
    }

    /** Require, called from outside any initializer or from a body. */
    method Require(n: Node) returns (r: Outcome)
      requires Valid()
      modifies this
      ensures r == Visit(g, old(Now()), old(stack), n)
      ensures r.Finished? ==> Valid() && Now() == r.p && stack == old(stack)
      ensures old(n in done && n !in stack) ==> Now() == old(Now())
    {
      r := RunIfNecessary(n);
    }

    /** RunInitializers: runs all of one type in name order, then drops its table. */
    method RunAll(kind: string) returns (r: Outcome)
      requires Valid() && stack == []
      modifies this
      ensures kind !in order ==> r == Finished(old(Now()))
      ensures kind in order ==>
                && r == VisitAll(g, old(Now()), [], order[kind])
                && (r.Finished? <==> !ReachableCycle(g, order[kind]) && AllKnown(g, order[kind]))
      ensures r.Finished? ==> Valid() && Now() == r.p && stack == []
      ensures r.Finished? && kind in order ==> forall n :: n in order[kind] ==> n in done && n !in table
    {
      if kind !in order {
        return Finished(Now());
      }
      RunStopsExactly(g, Now(), order[kind]);
      VisitAllOrderly(g, Now(), [], order[kind]);
      r := RunEach(order[kind]);
      if r.Finished? {
        table := map n | n in table && n !in order[kind] :: table[n];
      }
    }
  }
}
