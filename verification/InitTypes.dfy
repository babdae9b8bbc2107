/**
 From the registration tables of all types to the run: the initializers of a type and the
 dependencies of each are taken in lexicographic order of their names, so the order in
 which bodies execute is a function of what was registered and not of when.
 */
module InitTypes {
  import opened Options
  import opened InitRegistration
  import opened InitSchedule
  import opened InitOrder

  type Types = map<string, Table>

  // ---------------------------------------------------------------------------
  // Names in order
  // ---------------------------------------------------------------------------

  predicate NameLeq(a: string, b: string) {
    a == [] || (b != [] && (a[0] < b[0] || (a[0] == b[0] && NameLeq(a[1..], b[1..]))))
  }

  lemma {:induction false} NameLeqTotal(a: string, b: string)
    ensures NameLeq(a, b) || NameLeq(b, a)
  {
    if a != [] && b != [] { NameLeqTotal(a[1..], b[1..]); }
  }

  lemma {:induction false} NameLeqTransitive(a: string, b: string, c: string)
    requires NameLeq(a, b) && NameLeq(b, c)
    ensures NameLeq(a, c)
  {
    if a != [] && a[0] == b[0] == c[0] { NameLeqTransitive(a[1..], b[1..], c[1..]); }
  }

  lemma {:induction false} NameLeqAntisymmetric(a: string, b: string)
    requires NameLeq(a, b) && NameLeq(b, a)
    ensures a == b
  {
    if a != [] {
      NameLeqAntisymmetric(a[1..], b[1..]);
      assert a == [a[0]] + a[1..] && b == [b[0]] + b[1..];
    }
  }

  /** At i the names differ for the first time, and there a has the smaller character. */
  ghost predicate SmallerAt(a: string, b: string, i: int) {
    0 <= i < |a| && i < |b| && a[..i] == b[..i] && a[i] < b[i]
  }

  lemma {:induction false} NameLeqIsLexicographic(a: string, b: string)
    ensures NameLeq(a, b) <==> a <= b || exists i :: SmallerAt(a, b, i)
  {
    if a != [] && b != [] {
      NameLeqIsLexicographic(a[1..], b[1..]);
      assert a == [a[0]] + a[1..] && b == [b[0]] + b[1..];
      if a[0] < b[0] {
        assert SmallerAt(a, b, 0);
      }
      forall i | i > 0 ensures SmallerAt(a, b, i) <==> a[0] == b[0] && SmallerAt(a[1..], b[1..], i - 1) {
        SmallerLater(a, b, i);
      }
      if a[0] == b[0] && exists i :: SmallerAt(a[1..], b[1..], i) {
        var i :| SmallerAt(a[1..], b[1..], i);
        assert SmallerAt(a, b, i + 1);
      }
    }
  }

  lemma SmallerLater(a: string, b: string, i: int)
    requires a != [] && b != [] && i > 0
    ensures SmallerAt(a, b, i) <==> a[0] == b[0] && SmallerAt(a[1..], b[1..], i - 1)
  {
    if i < |a| && i < |b| {
      assert a[..i] == [a[0]] + a[1..][..i - 1] && b[..i] == [b[0]] + b[1..][..i - 1];
      assert a[..i][1..] == a[1..][..i - 1] && b[..i][1..] == b[1..][..i - 1];
    }
  }

  predicate IsLeast(m: string, names: set<string>) {
    m in names && forall x :: x in names ==> NameLeq(m, x)
  }

  lemma {:induction false} LeastExists(names: set<string>)
    requires names != {}
    ensures exists m :: IsLeast(m, names)
    decreases |names|
  {
    var x :| x in names;
    var rest := names - {x};
    if rest == {} {
      NameLeqTotal(x, x);
      assert names == {x};
      assert IsLeast(x, names);
    } else {
      LeastExists(rest);
      var m :| IsLeast(m, rest);
      NameLeqTotal(m, x);
      NameLeqTotal(x, x);
      if NameLeq(m, x) {
        assert IsLeast(m, names);
      } else {
        forall y | y in names ensures NameLeq(x, y) {
          if y != x { NameLeqTransitive(x, m, y); }
        }
        assert IsLeast(x, names);
      }
    }
  }

  lemma LeastIsUnique(names: set<string>)
    ensures forall a, b :: IsLeast(a, names) && IsLeast(b, names) ==> a == b
  {
    forall a, b | IsLeast(a, names) && IsLeast(b, names) ensures a == b {
      NameLeqAntisymmetric(a, b);
    }
  }

  /** The names of a set in order, as std::map and btree_set iterate over them. */
  function InNameOrder(names: set<string>): seq<string>
    decreases |names|
  {
    if names == {} then []
    else
      LeastExists(names);
      LeastIsUnique(names);
      var m :| m in names && IsLeast(m, names);
      [m] + InNameOrder(names - {m})
  }

  lemma LeastComesFirst(names: set<string>)
    requires names != {}
    ensures var s := InNameOrder(names);
            s != [] && IsLeast(s[0], names) && s[1..] == InNameOrder(names - {s[0]})
  {
    LeastExists(names);
    LeastIsUnique(names);
  }

  lemma {:induction false} InNameOrderIsSorted(names: set<string>)
    ensures var s := InNameOrder(names);
            && (forall x :: x in s <==> x in names)
            && (forall i, j :: 0 <= i < j < |s| ==> NameLeq(s[i], s[j]) && s[i] != s[j])
    decreases |names|
  {
    if names != {} {
      LeastComesFirst(names);
      var s := InNameOrder(names);
      InNameOrderIsSorted(names - {s[0]});
      PrependLeast(s[0], s[1..], names);
      assert s == [s[0]] + s[1..];
    }
  }

  lemma PrependLeast(m: string, rest: seq<string>, names: set<string>)
    requires IsLeast(m, names) && forall x :: x in rest <==> x in names - {m}
    requires forall i, j :: 0 <= i < j < |rest| ==> NameLeq(rest[i], rest[j]) && rest[i] != rest[j]
    ensures var s := [m] + rest;
            && (forall x :: x in s <==> x in names)
            && (forall i, j :: 0 <= i < j < |s| ==> NameLeq(s[i], s[j]) && s[i] != s[j])
  {
    var s := [m] + rest;
    forall i, j | 0 <= i < j < |s| ensures NameLeq(s[i], s[j]) && s[i] != s[j] {
      assert s[j] == rest[j - 1] && rest[j - 1] in rest;
    }
    forall x ensures x in s <==> x in names {
      assert x in s <==> x == m || x in rest;
    }
  }

  // ---------------------------------------------------------------------------
  // The graph of all tables
  // ---------------------------------------------------------------------------

  function Objects(t: Table, names: seq<string>): seq<Node>
    requires forall x :: x in names ==> x in t
  {
    seq(|names|, i requires 0 <= i < |names| => t[names[i]].obj)
  }

  /** The objects of a set of names, in name order. */
  function Sorted(t: Table, names: set<string>): seq<Node>
    requires names <= t.Keys
  {
    InNameOrderIsSorted(names);
    Objects(t, InNameOrder(names))
  }

  /** An initializer was constructed under this type and name. */
  predicate IsOwn(types: Types, n: Node, kind: string, name: string) {
    kind in types && name in types[kind] && types[kind][name].constructed && types[kind][name].obj == n
  }

  /** No object was constructed under two names. */
  ghost predicate OneName(types: Types) {
    forall n, k, x, l, y :: IsOwn(types, n, k, x) && IsOwn(types, n, l, y) ==> k == l && x == y
  }

  function Constructed(types: Types): set<Node> {
    set k, x | k in types && x in types[k] && types[k][x].constructed :: types[k][x].obj
  }

  /** The tables are as registration leaves them, and the body of every initializer is known. */
  ghost predicate Ready(types: Types, body: map<Node, seq<Node>>) {
    Linked(types) && OneName(types) && Constructed(types) <= body.Keys
  }

  lemma HasOwn(types: Types, n: Node)
    requires n in Constructed(types)
    ensures exists k, x :: IsOwn(types, n, k, x)
  {
    var k, x :| k in types && x in types[k] && types[k][x].constructed && types[k][x].obj == n;
    assert IsOwn(types, n, k, x);
  }

  function OwnName(types: Types, n: Node): (own: (string, string))
    requires OneName(types) && n in Constructed(types)
    ensures IsOwn(types, n, own.0, own.1)
  {
    HasOwn(types, n);
    var k, x :| k in types && x in types[k] && IsOwn(types, n, k, x);
    (k, x)
  }

  /** The dependencies of an initializer, in name order. */
  function DependenciesOf(types: Types, n: Node): seq<Node>
    requires Linked(types) && OneName(types) && n in Constructed(types)
  {
    var (k, x) := OwnName(types, n);
    Sorted(types[k], types[k][x].deps)
  }

  function GraphOf(types: Types, body: map<Node, seq<Node>>): (g: Graph)
    requires Ready(types, body)
    ensures WellFormed(g)
  {
    var nodes := Constructed(types);
    Graph(nodes, map n | n in nodes :: DependenciesOf(types, n), map n | n in nodes :: body[n])
  }

  /** The order in which RunAll goes through each type. */
  function OrderOf(types: Types): map<string, seq<Node>> {
    map k | k in types :: Sorted(types[k], types[k].Keys)
  }

  /** Each initializer is constructed once, as an object of the program. */
  ghost predicate ConstructedOnce(regs: seq<Typed>) {
    forall r, q :: r in regs && q in regs && r.reg.Initializer? && q.reg.Initializer? && r.reg.obj == q.reg.obj ==>
                     r == q
  }

  /** Registration that gets past its CHECKs leaves the tables as the run needs them. */
  lemma RegistrationIsReady(regs: seq<Typed>, body: map<Node, seq<Node>>)
    requires RegisterTypes(regs).Some? && ConstructedOnce(regs) && Constructed(RegisterTypes(regs).value) <= body.Keys
    ensures Ready(RegisterTypes(regs).value, body)
  {
    var types: Types := RegisterTypes(regs).value;
    RegistrationLinks(regs);
    forall n, k, x, l, y | IsOwn(types, n, k, x) && IsOwn(types, n, l, y) ensures k == l && x == y {
      OwnWasRegistered(regs, n, k, x);
      OwnWasRegistered(regs, n, l, y);
    }
  }

  lemma OwnWasRegistered(regs: seq<Typed>, n: Node, kind: string, name: string)
    requires RegisterTypes(regs).Some? && IsOwn(RegisterTypes(regs).value, n, kind, name)
    ensures Typed(kind, Initializer(name, n)) in regs
  {
    var own := OfKind(regs, kind);
    TypesAreTables(regs);
    assert RegisterAll(own) == Some(TableOf(RegisterTypes(regs).value, kind));
    TableDescribes(own);
    var r :| r in own && r.Initializer? && r.name == name;
    assert Mentions(r, name, r.obj);
    assert multiset(own)[r] >= 1;
    KindCounts(regs, kind, r);
  }

  // ---------------------------------------------------------------------------
  // Names in turn
  // ---------------------------------------------------------------------------

  /** Something named no later than a needs y. */
  ghost predicate NeededBy(g: Graph, t: Table, names: set<string>, a: string, y: Node)
    requires WellFormed(g) && names <= t.Keys
  {
    exists c :: c in names && NameLeq(c, a) && Reaches(g, [t[c].obj], y)
  }

  /** The same by position in the list. */
  lemma PlacesInTurn(g: Graph, p: Progress, stack: seq<Node>, ns: seq<Node>, ia: nat, ib: nat)
    requires WellFormed(g) && Orderly(g, p, stack) && VisitAll(g, p, stack, ns).Finished?
    requires ia < |ns| && ib < |ns| && ns[ib] !in p.done
    ensures || Precedes(VisitAll(g, p, stack, ns).p.log, End(ns[ia]), Begin(ns[ib]))
            || exists j :: 0 <= j <= ia && Reaches(g, [ns[j]], ns[ib])
  {
    var x, y := ns[ia], ns[ib];
    ReachesItself(g, ns, x);
    ReachesItself(g, ns, y);
    ReachesItself(g, [ns[ia]], x);
    var i, j := First(g, ns, x), First(g, ns, y);
    assert i <= ia;
    if i < j {
      RootsRunInTurn(g, p, stack, ns, x, y);
    }
  }

  /** Where a name is in name order. */
  lemma PlaceOf(names: set<string>, a: string) returns (i: nat)
    requires a in names
    ensures i < |InNameOrder(names)| && InNameOrder(names)[i] == a
    ensures forall j :: 0 <= j <= i ==> InNameOrder(names)[j] in names && NameLeq(InNameOrder(names)[j], a)
  {
    var s := InNameOrder(names);
    InNameOrderIsSorted(names);
    i :| 0 <= i < |s| && s[i] == a;
    NameLeqTotal(a, a);
  }

  /**
   Of two names in a list that is walked in name order, the earlier has ended before the
   later begins, unless the later is needed by a name no later than the earlier.
   */
  lemma NamesInTurn(g: Graph, t: Table, names: set<string>, p: Progress, stack: seq<Node>, a: string, b: string)
    requires WellFormed(g) && Orderly(g, p, stack)
    requires names <= t.Keys && VisitAll(g, p, stack, Sorted(t, names)).Finished?
    requires a in names && b in names && NameLeq(a, b) && a != b && t[b].obj !in p.done
    ensures || Precedes(VisitAll(g, p, stack, Sorted(t, names)).p.log, End(t[a].obj), Begin(t[b].obj))
            || NeededBy(g, t, names, a, t[b].obj)
  {
    var s, ns := InNameOrder(names), Sorted(t, names);
    var ia := PlaceOf(names, a);
    var ib := PlaceOf(names, b);
    PlacesInTurn(g, p, stack, ns, ia, ib);
    if j :| 0 <= j <= ia && Reaches(g, [ns[j]], ns[ib]) {
      assert s[j] in names && NameLeq(s[j], a) && t[s[j]].obj == ns[j];
    }
  }

  /** What RunInitializers of a type does, from whatever was run before. */
  ghost function RunKind(types: Types, body: map<Node, seq<Node>>, p: Progress, kind: string): Outcome
    requires Ready(types, body) && kind in types
  {
    VisitAll(GraphOf(types, body), p, [], OrderOf(types)[kind])
  }

  /** RunInitializers takes the names of its type in turn. */
  lemma KindRunsInNameOrder(types: Types, body: map<Node, seq<Node>>, p: Progress, kind: string, a: string, b: string)
    requires Ready(types, body) && Orderly(GraphOf(types, body), p, []) && kind in types
    requires RunKind(types, body, p, kind).Finished?
    requires a in types[kind] && b in types[kind] && NameLeq(a, b) && a != b && types[kind][b].obj !in p.done
    ensures var t := types[kind];
            || Precedes(RunKind(types, body, p, kind).p.log, End(t[a].obj), Begin(t[b].obj))
            || NeededBy(GraphOf(types, body), t, t.Keys, a, t[b].obj)
  {
    NamesInTurn(GraphOf(types, body), types[kind], types[kind].Keys, p, [], a, b);
  }

  /**
   And so does every initializer it executes with its own dependencies, from where that
   initializer was entered.
   */
  lemma DependenciesRunInNameOrder(types: Types, body: map<Node, seq<Node>>, p: Progress, kind: string, n: Node)
    returns (at: Progress, stack: seq<Node>)
    requires Ready(types, body) && Orderly(GraphOf(types, body), p, []) && kind in types
    requires RunKind(types, body, p, kind).Finished? && n in RunKind(types, body, p, kind).p.done && n !in p.done
    ensures Entered(GraphOf(types, body), p, RunKind(types, body, p, kind).p, n, at, stack)
    ensures n in Constructed(types)
    ensures var (k, x) := OwnName(types, n);
            var t := types[k];
            forall a, b :: a in t[x].deps && b in t[x].deps && NameLeq(a, b) && a != b && t[b].obj !in at.done ==>
                             || Precedes(RunKind(types, body, p, kind).p.log, End(t[a].obj), Begin(t[b].obj))
                             || NeededBy(GraphOf(types, body), t, t[x].deps, a, t[b].obj)
  {
    var g, q := GraphOf(types, body), RunKind(types, body, p, kind).p;
    at, stack := EnteredInRun(g, p, [], OrderOf(types)[kind], n);
    VisitIsTwoRuns(g, at, stack, n);
    var (k, x) := OwnName(types, n);
    var t := types[k];
    forall a, b | a in t[x].deps && b in t[x].deps && NameLeq(a, b) && a != b && t[b].obj !in at.done
      ensures Precedes(q.log, End(t[a].obj), Begin(t[b].obj)) || NeededBy(g, t, t[x].deps, a, t[b].obj)
    {
      NamesInTurnForGood(g, t, t[x].deps, at, stack + [n], q.log, a, b);
    }
  }

  lemma NamesInTurnForGood(g: Graph, t: Table, names: set<string>, p: Progress, stack: seq<Node>, log: seq<Event>,
                           a: string, b: string)
    requires WellFormed(g) && Orderly(g, p, stack)
    requires names <= t.Keys && VisitAll(g, p, stack, Sorted(t, names)).Finished?
    requires a in names && b in names && NameLeq(a, b) && a != b && t[b].obj !in p.done
    requires VisitAll(g, p, stack, Sorted(t, names)).p.log <= log
    ensures Precedes(log, End(t[a].obj), Begin(t[b].obj)) || NeededBy(g, t, names, a, t[b].obj)
  {
    var before := VisitAll(g, p, stack, Sorted(t, names)).p.log;
    NamesInTurn(g, t, names, p, stack, a, b);
    if Precedes(before, End(t[a].obj), Begin(t[b].obj)) {
      PrecedesForGood(before, log, End(t[a].obj), Begin(t[b].obj));
    }
  }

  /** However the linker orders the constructors, the same bodies run in the same order. */
  lemma RunIgnoresRegistrationOrder(regs: seq<Typed>, shuffled: seq<Typed>, body: map<Node, seq<Node>>,
                                    p: Progress, kind: string)
    requires multiset(regs) == multiset(shuffled) && RegisterTypes(regs).Some? && ConstructedOnce(regs)
    requires Constructed(RegisterTypes(regs).value) <= body.Keys && kind in RegisterTypes(regs).value
    ensures RegisterTypes(shuffled) == RegisterTypes(regs) && Ready(RegisterTypes(regs).value, body)
    ensures RunKind(RegisterTypes(shuffled).value, body, p, kind) == RunKind(RegisterTypes(regs).value, body, p, kind)
  {
    TypesIgnoreOrder(regs, shuffled);
    RegistrationIsReady(regs, body);
  }

  // ---------------------------------------------------------------------------
  // The scheduler of a program
  // ---------------------------------------------------------------------------

  /** A scheduler over the tables that registration has built. */
  method NewScheduler(types: Types, body: map<Node, seq<Node>>) returns (s: Scheduler)
    requires Ready(types, body)
    ensures fresh(s) && s.Valid() && s.stack == [] && s.Now() == Progress({}, [])
    ensures s.g == GraphOf(types, body) && s.order == OrderOf(types)
  {
    s := new Scheduler(GraphOf(types, body), OrderOf(types));
  }

  /**
   RunInitializers: it finishes exactly if nothing the type reaches is on a cycle or was never
   constructed; then exactly what it reaches has been run, in name order.
   */
  method RunInitializers(s: Scheduler, ghost types: Types, ghost body: map<Node, seq<Node>>, kind: string)
    returns (r: Outcome)
    requires Ready(types, body) && s.Valid() && s.stack == []
    requires s.g == GraphOf(types, body) && s.order == OrderOf(types)
    modifies s
    ensures kind !in types ==> r == Finished(old(s.Now()))
    ensures kind in types ==> r == RunKind(types, body, old(s.Now()), kind)
    ensures kind in types ==> (r.Finished? <==> !ReachableCycle(s.g, s.order[kind]) && AllKnown(s.g, s.order[kind]))
    ensures r.Finished? ==> s.Valid() && s.stack == [] && s.Now() == r.p
    ensures r.Finished? && kind in types ==>
              forall x :: x in s.done <==> x in old(s.done) || Reaches(s.g, s.order[kind], x)
    ensures r.Finished? && kind in types ==>
              forall a, b :: a in types[kind] && b in types[kind] && NameLeq(a, b) && a != b
                             && types[kind][b].obj !in old(s.done) ==>
                               || Precedes(s.log, End(types[kind][a].obj), Begin(types[kind][b].obj))
                               || NeededBy(s.g, types[kind], types[kind].Keys, a, types[kind][b].obj)
  {
    ghost var p := s.Now();
    r := s.RunAll(kind);
    if r.Finished? && kind in s.order {
      ghost var q := s.Now();
      forall x ensures x in q.done <==> x in p.done || Reaches(s.g, s.order[kind], x) {
        RunsExactly(s.g, p, [], s.order[kind], x);
      }
      forall a, b | a in types[kind] && b in types[kind] && NameLeq(a, b) && a != b && types[kind][b].obj !in p.done
        ensures || Precedes(q.log, End(types[kind][a].obj), Begin(types[kind][b].obj))
                || NeededBy(s.g, types[kind], types[kind].Keys, a, types[kind][b].obj)
      {
        KindRunsInNameOrder(types, body, p, kind, a, b);
      }
    }
  }
}
