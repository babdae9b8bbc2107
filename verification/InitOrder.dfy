/**
 The order of a run: exactly what a run executes, and that it goes through its roots, the
 dependencies of each initializer and the calls of each body in turn. So an initializer
 runs ahead of its turn only if something whose turn has come needs it.
 */
module InitOrder {
  import opened InitSchedule

  // ---------------------------------------------------------------------------
  // What a run executes
  // ---------------------------------------------------------------------------

  lemma ReachesItself(g: Graph, roots: seq<Node>, n: Node)
    requires WellFormed(g) && n in roots
    ensures Reaches(g, roots, n)
  {
    assert IsPath(g, [n]) && [n][0] in roots;
  }

  /** What the successors of n reach, n reaches. */
  lemma ReachesThrough(g: Graph, n: Node, next: seq<Node>, x: Node)
    requires WellFormed(g) && Reaches(g, next, x) && forall m :: m in next ==> Edge(g, n, m)
    ensures Reaches(g, [n], x)
  {
    var path :| IsPath(g, path) && path[0] in next && path[|path| - 1] == x;
    var longer := [n] + path;
    forall i | 0 <= i < |longer| - 1 ensures Edge(g, longer[i], longer[i + 1]) {
      if i > 0 {
        assert Edge(g, path[i - 1], path[i]);
      }
    }
    assert IsPath(g, longer) && longer[0] in [n] && longer[|longer| - 1] == x;
  }

  /** Reaching from several roots is reaching from one of them. */
  lemma ReachesFromOne(g: Graph, roots: seq<Node>, x: Node)
    requires WellFormed(g) && Reaches(g, roots, x)
    ensures exists i :: 0 <= i < |roots| && Reaches(g, [roots[i]], x)
  {
    var path :| IsPath(g, path) && path[0] in roots && path[|path| - 1] == x;
    var i :| 0 <= i < |roots| && roots[i] == path[0];
    assert path[0] in [roots[i]];
  }

  lemma ReachesFromMore(g: Graph, some: seq<Node>, roots: seq<Node>, x: Node)
    requires WellFormed(g) && Reaches(g, some, x) && forall n :: n in some ==> n in roots
    ensures Reaches(g, roots, x)
  {
  }

  lemma {:induction false} VisitRunsOnly(g: Graph, p: Progress, stack: seq<Node>, n: Node, x: Node)
    requires WellFormed(g) && Visit(g, p, stack, n).Finished? && x in Visit(g, p, stack, n).p.done
    ensures x in p.done || Reaches(g, [n], x)
    decreases Left(g, stack), 0
  {
    if n !in p.done && x != n {
      PushShrinks(g, stack, n);
      var before := VisitAll(g, p, stack + [n], g.deps[n]).p;
      VisitAllRunsOnly(g, Log(before, Begin(n)), stack + [n], g.body[n], x);
      if Reaches(g, g.body[n], x) {
        ReachesThrough(g, n, g.body[n], x);
      } else {
        VisitAllRunsOnly(g, p, stack + [n], g.deps[n], x);
        if Reaches(g, g.deps[n], x) {
          ReachesThrough(g, n, g.deps[n], x);
        }
      }
    } else if x == n {
      ReachesItself(g, [n], n);
    }
  }

  lemma {:induction false} VisitAllRunsOnly(g: Graph, p: Progress, stack: seq<Node>, ns: seq<Node>, x: Node)
    requires WellFormed(g) && VisitAll(g, p, stack, ns).Finished? && x in VisitAll(g, p, stack, ns).p.done
    ensures x in p.done || Reaches(g, ns, x)
    decreases Left(g, stack), |ns|
  {
    if ns != [] {
      var first := Visit(g, p, stack, ns[0]).p;
      VisitAllRunsOnly(g, first, stack, ns[1..], x);
      if Reaches(g, ns[1..], x) {
        ReachesFromMore(g, ns[1..], ns, x);
      } else {
        VisitRunsOnly(g, p, stack, ns[0], x);
        if Reaches(g, [ns[0]], x) {
          ReachesFromMore(g, [ns[0]], ns, x);
        }
      }
    }
  }

  /** A run that finishes has run exactly what its roots reach, and nothing else. */
  lemma RunsExactly(g: Graph, p: Progress, stack: seq<Node>, ns: seq<Node>, x: Node)
    requires WellFormed(g) && Orderly(g, p, stack) && VisitAll(g, p, stack, ns).Finished?
    ensures x in VisitAll(g, p, stack, ns).p.done <==> x in p.done || Reaches(g, ns, x)
  {
    var q := VisitAll(g, p, stack, ns).p;
    VisitAllOrderly(g, p, stack, ns);
    if x in q.done {
      VisitAllRunsOnly(g, p, stack, ns, x);
    } else if Reaches(g, ns, x) {
      ReachableIsDone(g, q, ns, x);
    }
  }

  // ---------------------------------------------------------------------------
  // In turn
  // ---------------------------------------------------------------------------

  /** The first of several roots that needs an initializer. */
  ghost function First(g: Graph, roots: seq<Node>, x: Node): (i: nat)
    requires WellFormed(g) && Reaches(g, roots, x)
    ensures i < |roots| && Reaches(g, [roots[i]], x)
    ensures forall j :: 0 <= j < i ==> !Reaches(g, [roots[j]], x)
    decreases |roots|
  {
    ReachesFromOne(g, roots, x);
    if Reaches(g, [roots[0]], x) then 0
    else
      var k :| 0 < k < |roots| && Reaches(g, [roots[k]], x);
      assert roots[1..][k - 1] == roots[k];
      ReachesFromMore(g, [roots[k]], roots[1..], x);
      var i := First(g, roots[1..], x) + 1;
      assert roots[i] == roots[1..][i - 1];
      assert forall j :: 0 < j < i ==> roots[j] == roots[1..][j - 1];
      i
  }

  lemma {:induction false} VisitAllSplits(g: Graph, p: Progress, stack: seq<Node>, ns: seq<Node>, k: nat)
    requires WellFormed(g) && k <= |ns| && VisitAll(g, p, stack, ns).Finished?
    ensures VisitAll(g, p, stack, ns[..k]).Finished?
    ensures VisitAll(g, p, stack, ns) == VisitAll(g, VisitAll(g, p, stack, ns[..k]).p, stack, ns[k..])
    decreases k
  {
    if k == 0 {
      assert ns[..k] == [] && ns[k..] == ns;
    } else {
      var first := Visit(g, p, stack, ns[0]).p;
      VisitAllSplits(g, first, stack, ns[1..], k - 1);
      assert ns[..k][0] == ns[0] && ns[..k][1..] == ns[1..][..k - 1] && ns[1..][k - 1..] == ns[k..];
    }
  }

  lemma PositionInPrefix(log: seq<Event>, longer: seq<Event>, e: Event)
    requires log <= longer && e in log
    ensures e in longer && Position(longer, e) == Position(log, e)
  {
    var i, k := Position(log, e), Position(longer, e);
    assert longer[i] == e && longer[k] == e;
    assert forall j :: 0 <= j < i ==> log[..i][j] != e;
    assert forall j :: 0 <= j < k ==> longer[..k][j] != e;
  }

  lemma PrecedesForGood(log: seq<Event>, longer: seq<Event>, a: Event, b: Event)
    requires log <= longer && Precedes(log, a, b)
    ensures Precedes(longer, a, b)
  {
    PositionInPrefix(log, longer, a);
    PositionInPrefix(log, longer, b);
  }

  /** What is in the log before b was added precedes b. */
  lemma PrecedesLater(log: seq<Event>, longer: seq<Event>, a: Event, b: Event)
    requires log <= longer && a in log && b !in log && b in longer
    ensures Precedes(longer, a, b)
  {
    PositionInPrefix(log, longer, a);
    var k := Position(longer, b);
    assert forall j :: 0 <= j < |log| ==> longer[j] != b;
  }

  lemma DoneHasBegun(g: Graph, p: Progress, x: Node)
    requires WellFormed(g) && Sound(g, p) && x in p.done
    ensures Begin(x) in p.log && End(x) in p.log
  {
    var i := Position(p.log, End(x));
    assert InOrder(g, p.log, i);
  }

  /**
   A run takes its roots in turn: of two initializers, the one an earlier root needs first
   has ended before the other begins, whatever the dependencies and the bodies are.
   */
  lemma RootsRunInTurn(g: Graph, p: Progress, stack: seq<Node>, ns: seq<Node>, x: Node, y: Node)
    requires WellFormed(g) && Orderly(g, p, stack) && VisitAll(g, p, stack, ns).Finished?
    requires Reaches(g, ns, x) && Reaches(g, ns, y) && y !in p.done && First(g, ns, x) < First(g, ns, y)
    ensures Precedes(VisitAll(g, p, stack, ns).p.log, End(x), Begin(y))
  {
    var k := First(g, ns, x) + 1;
    var q := VisitAll(g, p, stack, ns).p;
    VisitAllSplits(g, p, stack, ns, k);
    var mid := VisitAll(g, p, stack, ns[..k]).p;
    VisitAllOrderly(g, p, stack, ns);
    VisitAllOrderly(g, p, stack, ns[..k]);
    VisitAllOrderly(g, mid, stack, ns[k..]);
    RunsExactly(g, p, stack, ns, y);
    DoneHasBegun(g, q, y);
    assert x in mid.done by {
      ReachesFromMore(g, [ns[k - 1]], ns[..k], x);
      RunsExactly(g, p, stack, ns[..k], x);
    }
    assert y !in mid.done by {
      NotYetReached(g, ns, k, y);
      RunsExactly(g, p, stack, ns[..k], y);
    }
    assert Begin(y) !in mid.log;
    PrecedesLater(mid.log, q.log, End(x), Begin(y));
  }

  lemma NotYetReached(g: Graph, ns: seq<Node>, k: nat, y: Node)
    requires WellFormed(g) && Reaches(g, ns, y) && k <= First(g, ns, y)
    ensures !Reaches(g, ns[..k], y)
  {
    assert forall i :: 0 <= i < k ==> !Reaches(g, [ns[..k][i]], y);
  }

  // ---------------------------------------------------------------------------
  // The same one level down, for every initializer of a run
  // ---------------------------------------------------------------------------

  /** The two lists an initializer goes through, and where the second begins. */
  lemma VisitIsTwoRuns(g: Graph, p: Progress, stack: seq<Node>, n: Node)
    requires WellFormed(g) && Orderly(g, p, stack) && n !in p.done && Visit(g, p, stack, n).Finished?
    ensures n in g.nodes && n !in stack && Orderly(g, p, stack + [n])
    ensures var before := VisitAll(g, p, stack + [n], g.deps[n]);
            && before.Finished?
            && var begun := Log(before.p, Begin(n));
            && Orderly(g, begun, stack + [n])
            && before.p.log <= begun.log && Begin(n) !in before.p.log
            && var during := VisitAll(g, begun, stack + [n], g.body[n]);
            && during.Finished? && Orderly(g, during.p, stack + [n])
            && begun.log <= during.p.log <= Visit(g, p, stack, n).p.log
  {
    assert forall m :: m in stack ==> m in stack + [n];
    assert n in stack + [n];
    VisitAllOrderly(g, p, stack + [n], g.deps[n]);
    var before := VisitAll(g, p, stack + [n], g.deps[n]).p;
    BeginOrderly(g, p, before, stack, n);
    VisitAllOrderly(g, Log(before, Begin(n)), stack + [n], g.body[n]);
  }

  /** The dependencies of an initializer are taken in turn, and its body begins after them. */
  lemma DependenciesInTurn(g: Graph, p: Progress, stack: seq<Node>, n: Node, x: Node, y: Node)
    requires WellFormed(g) && Orderly(g, p, stack) && n !in p.done && Visit(g, p, stack, n).Finished? && n in g.nodes
    requires Reaches(g, g.deps[n], x) && Reaches(g, g.deps[n], y) && y !in p.done
    requires First(g, g.deps[n], x) < First(g, g.deps[n], y)
    ensures Precedes(Visit(g, p, stack, n).p.log, End(x), Begin(y))
  {
    VisitIsTwoRuns(g, p, stack, n);
    var before := VisitAll(g, p, stack + [n], g.deps[n]).p;
    RootsRunInTurn(g, p, stack + [n], g.deps[n], x, y);
    PrecedesForGood(before.log, Visit(g, p, stack, n).p.log, End(x), Begin(y));
  }

  /** What its body requires is taken in turn, after the body has begun. */
  lemma BodyInTurn(g: Graph, p: Progress, stack: seq<Node>, n: Node, x: Node, y: Node)
    requires WellFormed(g) && Orderly(g, p, stack) && n !in p.done && Visit(g, p, stack, n).Finished? && n in g.nodes
    requires Reaches(g, g.body[n], x) && Reaches(g, g.body[n], y) && y !in p.done && !Reaches(g, g.deps[n], y)
    requires First(g, g.body[n], x) < First(g, g.body[n], y)
    ensures Precedes(Visit(g, p, stack, n).p.log, End(x), Begin(y))
    ensures Precedes(Visit(g, p, stack, n).p.log, Begin(n), Begin(y))
  {
    VisitIsTwoRuns(g, p, stack, n);
    RunsExactly(g, p, stack + [n], g.deps[n], y);
    var begun := Log(VisitAll(g, p, stack + [n], g.deps[n]).p, Begin(n));
    var during := VisitAll(g, begun, stack + [n], g.body[n]).p;
    RootsRunInTurn(g, begun, stack + [n], g.body[n], x, y);
    RunsExactly(g, begun, stack + [n], g.body[n], y);
    DoneHasBegun(g, during, y);
    NotBegun(g, begun, during, stack + [n], y);
    PrecedesLater(begun.log, during.log, Begin(n), Begin(y));
    PrecedesForGood(during.log, Visit(g, p, stack, n).p.log, End(x), Begin(y));
    PrecedesForGood(during.log, Visit(g, p, stack, n).p.log, Begin(n), Begin(y));
  }

  lemma NotBegun(g: Graph, p: Progress, q: Progress, stack: seq<Node>, y: Node)
    requires WellFormed(g) && Orderly(g, p, stack) && Orderly(g, q, stack) && y !in p.done && y in q.done
    ensures Begin(y) !in p.log
  {
  }

  /** Where an initializer that a run has executed was entered. */
  ghost predicate Entered(g: Graph, p: Progress, q: Progress, n: Node, at: Progress, stack: seq<Node>)
    requires WellFormed(g)
  {
    && Orderly(g, at, stack) && n !in at.done && p.done <= at.done && p.log <= at.log
    && Visit(g, at, stack, n).Finished? && Visit(g, at, stack, n).p.log <= q.log
  }

  lemma {:induction false} EnteredInVisit(g: Graph, p: Progress, stack: seq<Node>, m: Node, n: Node)
    returns (at: Progress, outer: seq<Node>)
    requires WellFormed(g) && Orderly(g, p, stack) && Visit(g, p, stack, m).Finished?
    requires n in Visit(g, p, stack, m).p.done && n !in p.done
    ensures Entered(g, p, Visit(g, p, stack, m).p, n, at, outer)
    decreases Left(g, stack), 0
  {
    if m == n {
      at, outer := p, stack;
    } else {
      VisitIsTwoRuns(g, p, stack, m);
      PushShrinks(g, stack, m);
      var before := VisitAll(g, p, stack + [m], g.deps[m]).p;
      VisitAllOrderly(g, p, stack + [m], g.deps[m]);
      if n in before.done {
        at, outer := EnteredInRun(g, p, stack + [m], g.deps[m], n);
      } else {
        at, outer := EnteredInRun(g, Log(before, Begin(m)), stack + [m], g.body[m], n);
      }
    }
  }

  lemma {:induction false} EnteredInRun(g: Graph, p: Progress, stack: seq<Node>, ns: seq<Node>, n: Node)
    returns (at: Progress, outer: seq<Node>)
    requires WellFormed(g) && Orderly(g, p, stack) && VisitAll(g, p, stack, ns).Finished?
    requires n in VisitAll(g, p, stack, ns).p.done && n !in p.done
    ensures Entered(g, p, VisitAll(g, p, stack, ns).p, n, at, outer)
    decreases Left(g, stack), |ns|
  {
    var first := Visit(g, p, stack, ns[0]).p;
    VisitOrderly(g, p, stack, ns[0]);
    VisitAllOrderly(g, first, stack, ns[1..]);
    if n in first.done {
      at, outer := EnteredInVisit(g, p, stack, ns[0], n);
    } else {
      at, outer := EnteredInRun(g, first, stack, ns[1..], n);
    }
  }
}
