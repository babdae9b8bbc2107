/**
 The scoped context objects: WithContext, WithTraceContext, WithDeadline, WithCensusHandle
 and WithThreadStatus. Each changes the thread's current Context when it is constructed,
 either by installing another Context object or by swapping one field of the current one,
 and undoes that when it is destroyed.

 A program is a tree of nested scopes. The objects are run against a specification in which
 a scope is nothing but an environment for its body.
 */
module ContextScopes {
  import opened Options

  type Time = int
  type Status = int

  /** A trace context: opaque but for the census handle it carries. */
  datatype Trace = Trace(id: int, census: int)

  /** What a Context holds. */
  datatype Values = Values(trace: Trace, deadline: Time, status: Status)

  datatype Scope =
    | InContext(make: Values -> Values)   // any context, possibly built from the current one
    | InTrace(trace: Option<Trace>)       // None: the current trace context passed to itself
    | InDeadline(deadline: Time)
    | InCensus(census: int)
    | InStatus(status: Status)

  datatype Program =
    | Observe
    | SetStatus(status: Status)           // SetCurrentThreadStatus
    | Then(first: Program, second: Program)
    | Within(scope: Scope, body: Program)

  // ---------------------------------------------------------------------------
  // Specification
  // ---------------------------------------------------------------------------

  /** What a scope that is open contributes. */
  datatype Opened =
    | Installed(values: Values)
    | Limit(deadline: Time)
    | Traced(trace: Trace)
    | Counted(census: int)
    | Named(status: Status)
    | Nothing

  /** What is seen at one point of a program, and the scopes open there, outermost first. */
  datatype Observation = Observation(values: Values, open: seq<Opened>)

  function Inside(scope: Scope, v: Values): Values {
    match scope
    case InContext(make) => make(v)
    case InTrace(trace) => if trace == None then v else v.(trace := trace.value)
    case InDeadline(d) => v.(deadline := if v.deadline <= d then v.deadline else d)
    case InCensus(h) => v.(trace := v.trace.(census := h))
    case InStatus(x) => v.(status := x)
  }

  function Opens(scope: Scope, v: Values): Opened {
    match scope
    case InContext(make) => Installed(make(v))
    case InDeadline(d) => Limit(d)
    case InTrace(trace) => if trace == None then Nothing else Traced(trace.value)
    case InCensus(h) => Counted(h)
    case InStatus(x) => Named(x)
  }

  /** A status set inside a scope outlives it, unless the scope brings its own. */
  function StatusAfter(p: Program, x: Status): Status {
    match p
    case Observe => x
    case SetStatus(y) => y
    case Then(p1, p2) => StatusAfter(p2, StatusAfter(p1, x))
    case Within(scope, body) => if scope.InContext? || scope.InStatus? then x else StatusAfter(body, x)
  }

  /** A program leaves everything as it was, but for a status it sets. */
  function Left(p: Program, v: Values): Values {
    v.(status := StatusAfter(p, v.status))
  }

  function Seen(p: Program, v: Values, open: seq<Opened>): seq<Observation> {
    match p
    case Observe => [Observation(v, open)]
    case SetStatus(_) => []
    case Then(p1, p2) => Seen(p1, v, open) + Seen(p2, Left(p1, v), open)
    case Within(scope, body) => Seen(body, Inside(scope, v), open + [Opens(scope, v)])
  }

  // ---------------------------------------------------------------------------
  // The deadline in force
  // ---------------------------------------------------------------------------

  /** Deadlines that bind at a point: those of WithDeadline since the innermost WithContext. */
  function Limits(open: seq<Opened>): set<Time> {
    if open == [] then {}
    else
      var last := open[|open| - 1];
      var outer := open[..|open| - 1];
      match last
      case Installed(_) => {}
      case Limit(d) => Limits(outer) + {d}
      case _ => Limits(outer)
  }

  /** The deadline of the innermost WithContext, or of the thread's own context. */
  function Base(own: Time, open: seq<Opened>): Time {
    if open == [] then own
    else if open[|open| - 1].Installed? then open[|open| - 1].values.deadline
    else Base(own, open[..|open| - 1])
  }

  ghost predicate IsMinimum(d: Time, base: Time, limits: set<Time>) {
    && (d == base || d in limits)
    && d <= base && (forall x :: x in limits ==> d <= x)
  }

  lemma NextOpened(own: Time, open: seq<Opened>, o: Opened)
    ensures Base(own, open + [o]) == if o.Installed? then o.values.deadline else Base(own, open)
    ensures Limits(open + [o]) == match o
                                  case Installed(_) => {}
                                  case Limit(d) => Limits(open) + {d}
                                  case _ => Limits(open)
  {
    assert (open + [o])[..|open|] == open;
  }

  lemma NearerIsMinimum(d: Time, base: Time, limits: set<Time>, e: Time)
    requires IsMinimum(d, base, limits)
    ensures IsMinimum(if d <= e then d else e, base, limits + {e})
  {
  }

  lemma ScopeKeepsMinimum(scope: Scope, v: Values, own: Time, open: seq<Opened>)
    requires IsMinimum(v.deadline, Base(own, open), Limits(open))
    ensures var now := open + [Opens(scope, v)];
            IsMinimum(Inside(scope, v).deadline, Base(own, now), Limits(now))
  {
    NextOpened(own, open, Opens(scope, v));
    if scope.InDeadline? {
      NearerIsMinimum(v.deadline, Base(own, open), Limits(open), scope.deadline);
    }
  }

  /**
   At every point of every program, the deadline seen is the minimum of the deadline of the
   innermost WithContext and of all WithDeadlines opened since.
   */
  lemma {:induction false} DeadlineIsMinimum(p: Program, v: Values, own: Time, open: seq<Opened>)
    requires IsMinimum(v.deadline, Base(own, open), Limits(open))
    ensures forall o :: o in Seen(p, v, open) ==> IsMinimum(o.values.deadline, Base(own, o.open), Limits(o.open))
  {
    match p
    case Observe =>
    case SetStatus(_) =>
    case Then(p1, p2) =>
      DeadlineIsMinimum(p1, v, own, open);
      DeadlineIsMinimum(p2, Left(p1, v), own, open);
    case Within(scope, body) =>
      ScopeKeepsMinimum(scope, v, own, open);
      DeadlineIsMinimum(body, Inside(scope, v), own, open + [Opens(scope, v)]);
  }

  // ---------------------------------------------------------------------------
  // The trace, census handle and status in force
  // ---------------------------------------------------------------------------

  predicate BringsTrace(o: Opened) {
    o.Installed? || o.Traced?
  }

  predicate BringsCensus(o: Opened) {
    o.Installed? || o.Traced? || o.Counted?
  }

  predicate BringsStatus(o: Opened) {
    o.Installed? || o.Named?
  }

  /** Scope i is open, brings what is asked for, and no scope inside it does. */
  ghost predicate IsInnermost(open: seq<Opened>, brings: Opened -> bool, i: int) {
    0 <= i < |open| && brings(open[i]) && forall j :: i < j < |open| ==> !brings(open[j])
  }

  function IdOf(o: Opened): int {
    match o
    case Installed(v) => v.trace.id
    case Traced(trace) => trace.id
    case _ => 0
  }

  function CensusOf(o: Opened): int {
    match o
    case Installed(v) => v.trace.census
    case Traced(trace) => trace.census
    case Counted(h) => h
    case _ => 0
  }

  function StatusOf(o: Opened): Status {
    match o
    case Installed(v) => v.status
    case Named(x) => x
    case _ => 0
  }

  /** The value in force is the one the innermost scope that brings one has brought, or the thread's own. */
  ghost predicate InForce(open: seq<Opened>, brings: Opened -> bool, value: Opened -> int, own: int, x: int) {
    && (forall i :: IsInnermost(open, brings, i) ==> x == value(open[i]))
    && ((forall i :: 0 <= i < |open| ==> !brings(open[i])) ==> x == own)
  }

  lemma InForceNext(open: seq<Opened>, brings: Opened -> bool, value: Opened -> int, own: int, x: int,
                    o: Opened, y: int)
    requires InForce(open, brings, value, own, x) && y == if brings(o) then value(o) else x
    ensures InForce(open + [o], brings, value, own, y)
  {
    var now := open + [o];
    assert now[|open|] == o;
    forall i | IsInnermost(now, brings, i) ensures y == value(now[i]) {
      if i < |open| {
        assert !brings(now[|open|]);
        assert forall j :: i < j < |open| ==> now[j] == open[j];
        assert IsInnermost(open, brings, i);
      }
    }
    if forall i :: 0 <= i < |now| ==> !brings(now[i]) {
      assert forall i :: 0 <= i < |open| ==> now[i] == open[i];
    }
  }

  /** The trace identity and the census handle in force at a point. */
  ghost predicate TraceInForce(own: Trace, v: Values, open: seq<Opened>) {
    && InForce(open, BringsTrace, IdOf, own.id, v.trace.id)
    && InForce(open, BringsCensus, CensusOf, own.census, v.trace.census)
  }

  /**
   At every point of every program, the trace is that of the innermost scope that brought
   one, and the census handle that of the innermost scope that brought a trace or a handle.
   */
  lemma {:induction false} TraceIsInnermost(p: Program, v: Values, own: Trace, open: seq<Opened>)
    requires TraceInForce(own, v, open)
    ensures forall o :: o in Seen(p, v, open) ==> TraceInForce(own, o.values, o.open)
  {
    match p
    case Observe =>
    case SetStatus(_) =>
    case Then(p1, p2) =>
      TraceIsInnermost(p1, v, own, open);
      TraceIsInnermost(p2, Left(p1, v), own, open);
    case Within(scope, body) =>
      var o, v' := Opens(scope, v), Inside(scope, v);
      InForceNext(open, BringsTrace, IdOf, own.id, v.trace.id, o, v'.trace.id);
      InForceNext(open, BringsCensus, CensusOf, own.census, v.trace.census, o, v'.trace.census);
      TraceIsInnermost(body, v', own, open + [o]);
  }

  /** The program never calls SetCurrentThreadStatus. */
  predicate SetsNoStatus(p: Program) {
    match p
    case Observe => true
    case SetStatus(_) => false
    case Then(p1, p2) => SetsNoStatus(p1) && SetsNoStatus(p2)
    case Within(_, body) => SetsNoStatus(body)
  }

  lemma {:induction false} NoStatusLeft(p: Program, x: Status)
    requires SetsNoStatus(p)
    ensures StatusAfter(p, x) == x
  {
    match p
    case Observe =>
    case Then(p1, p2) =>
      NoStatusLeft(p1, x);
      NoStatusLeft(p2, x);
    case Within(_, body) =>
      NoStatusLeft(body, x);
  }

  /** Where only scopes set it, the status seen is that of the innermost scope that brought one. */
  lemma {:induction false} StatusIsInnermost(p: Program, v: Values, own: Status, open: seq<Opened>)
    requires SetsNoStatus(p) && InForce(open, BringsStatus, StatusOf, own, v.status)
    ensures forall o :: o in Seen(p, v, open) ==> InForce(o.open, BringsStatus, StatusOf, own, o.values.status)
  {
    match p
    case Observe =>
    case Then(p1, p2) =>
      NoStatusLeft(p1, v.status);
      StatusIsInnermost(p1, v, own, open);
      StatusIsInnermost(p2, Left(p1, v), own, open);
    case Within(scope, body) =>
      InForceNext(open, BringsStatus, StatusOf, own, v.status, Opens(scope, v), Inside(scope, v).status);
      StatusIsInnermost(body, Inside(scope, v), own, open + [Opens(scope, v)]);
  }

  // ---------------------------------------------------------------------------
  // The objects
  // ---------------------------------------------------------------------------

  class Context {
    var trace: Trace
    var deadline: Time
    var status: Status

    constructor (v: Values)
      ensures Get() == v
    {
      trace, deadline, status := v.trace, v.deadline, v.status;
    }

    function Get(): Values
      reads this
    {
      Values(trace, deadline, status)
    }
  }

  class Thread {
    var current: Context

    constructor (c: Context)
      ensures current == c
    {
      current := c;
    }

    /** SwapContext and RestoreContext, less the trace hooks. */
    method Swap(c: Context) returns (was: Context)
      modifies this
      ensures current == c && was == old(current)
    {
      was := current;
      current := c;
    }
  }

  class WithContext {
    var installed: Context
    var previous: Context

    constructor (th: Thread, v: Values)
      modifies th
      ensures fresh(installed) && th.current == installed && installed.Get() == v
      ensures previous == old(th.current) && previous != installed
    {
      var c := new Context(v);
      installed := c;
      var was := th.Swap(c);
      previous := was;
    }

    /** Returns whether the scope check passed, and the object that was deleted. */
    method Close(th: Thread) returns (legal: bool, gone: Context)
      modifies th
      ensures th.current == previous && gone == old(th.current)
      ensures legal <==> old(th.current) == installed
    {
      gone := th.Swap(previous);
      legal := gone == installed;
    }
  }

  class WithTrace {
    var previous: Trace

    constructor (th: Thread, trace: Option<Trace>)
      modifies th.current
      ensures th.current == old(th.current) && previous == old(th.current.trace)
      ensures th.current.Get() == Inside(InTrace(trace), old(th.current.Get()))
      ensures th.current.trace == (if trace == None then old(th.current.trace) else trace.value)
      ensures th.current.deadline == old(th.current.deadline) && th.current.status == old(th.current.status)
    {
      previous := th.current.trace;
      new;
      if trace != None {
        th.current.trace := trace.value;
      }
    }

    method Close(th: Thread)
      modifies th.current
      ensures th.current.Get() == old(th.current.Get()).(trace := previous)
    {
      th.current.trace := previous;
    }
  }

  class WithDeadline {
    var swapped: Time
    var isSwapped: bool

    constructor (th: Thread, d: Time)
      modifies th.current
      ensures th.current == old(th.current)
      ensures th.current.Get() == Inside(InDeadline(d), old(th.current.Get()))
      ensures IsMinimum(th.current.deadline, old(th.current.deadline), {d})
      ensures th.current.trace == old(th.current.trace) && th.current.status == old(th.current.status)
      ensures if isSwapped then swapped == old(th.current.deadline) else th.current.Get() == old(th.current.Get())
    {
      swapped, isSwapped := d, false;
      new;
      if th.current.deadline <= d {
        return;
      }
      isSwapped := true;
      SwapDeadline(th.current);
    }

    method SwapDeadline(c: Context)
      modifies this`swapped, c`deadline
      ensures c.deadline == old(swapped) && swapped == old(c.deadline)
    {
      c.deadline, swapped := swapped, c.deadline;
    }

    method Close(th: Thread)
      modifies this`swapped, th.current
      ensures th.current.Get() == if isSwapped then old(th.current.Get()).(deadline := old(swapped))
                                  else old(th.current.Get())
    {
      if isSwapped {
        SwapDeadline(th.current);
      }
    }
  }

  class WithCensus {
    var swapped: int

    constructor (th: Thread, h: int)
      modifies th.current
      ensures th.current == old(th.current) && swapped == old(th.current.trace.census)
      ensures th.current.Get() == Inside(InCensus(h), old(th.current.Get()))
      ensures th.current.trace.census == h && th.current.trace.id == old(th.current.trace.id)
      ensures th.current.deadline == old(th.current.deadline) && th.current.status == old(th.current.status)
    {
      swapped := h;
      new;
      SwapHandle(th.current);
    }

    method SwapHandle(c: Context)
      modifies this`swapped, c`trace
      ensures c.trace == old(c.trace).(census := old(swapped)) && swapped == old(c.trace.census)
    {
      c.trace, swapped := c.trace.(census := swapped), c.trace.census;
    }

    method Close(th: Thread)
      modifies this`swapped, th.current
      ensures th.current.Get() == old(th.current.Get()).(trace := old(th.current.trace).(census := old(swapped)))
    {
      SwapHandle(th.current);
    }
  }

  class WithStatus {
    var swapped: Status

    constructor (th: Thread, x: Status)
      modifies th.current
      ensures th.current == old(th.current) && swapped == old(th.current.status)
      ensures th.current.Get() == Inside(InStatus(x), old(th.current.Get()))
      ensures th.current.status == x
      ensures th.current.trace == old(th.current.trace) && th.current.deadline == old(th.current.deadline)
    {
      swapped := th.current.status;
      new;
      th.current.status := x;
    }

    method Close(th: Thread)
      modifies th.current
      ensures th.current.Get() == old(th.current.Get()).(status := swapped)
    {
      th.current.status := swapped;
    }
  }

  /**
   Runs a program with the scope objects. Every scope gives back the very Context object and
   the values that were in force before it, no scope check fails, every Context a scope
   allocated is the one its end deletes, and what is seen is what the specification says.
   */
  method Run(th: Thread, p: Program, ghost open: seq<Opened>) returns (seen: seq<Values>, legal: bool)
    modifies th, th.current
    ensures th.current == old(th.current)
    ensures th.current.Get() == Left(p, old(th.current.Get()))
    ensures legal
    ensures |seen| == |Seen(p, old(th.current.Get()), open)|
    ensures forall i :: 0 <= i < |seen| ==> seen[i] == Seen(p, old(th.current.Get()), open)[i].values
    decreases p, 0
  {
    match p
    case Observe =>
      seen, legal := [th.current.Get()], true;
    case SetStatus(x) =>
      th.current.status := x;
      seen, legal := [], true;
    case Then(p1, p2) =>
      var seen1, legal1 := Run(th, p1, open);
      var seen2, legal2 := Run(th, p2, open);
      seen, legal := seen1 + seen2, legal1 && legal2;
    case Within(scope, body) =>
      seen, legal := RunWithin(th, scope, body, open);
  }

  method RunWithin(th: Thread, scope: Scope, body: Program, ghost open: seq<Opened>)
    returns (seen: seq<Values>, legal: bool)
    modifies th, th.current
    ensures th.current == old(th.current)
    ensures th.current.Get() == Left(Within(scope, body), old(th.current.Get()))
    ensures legal
    ensures var told := Seen(Within(scope, body), old(th.current.Get()), open);
            |seen| == |told| && forall i :: 0 <= i < |seen| ==> seen[i] == told[i].values
    decreases body, 2
  {
    ghost var v := th.current.Get();
    ghost var now := open + [Opens(scope, v)];
    match scope
    case InContext(make) =>
      var made, gone;
      seen, legal, made, gone := RunWithContext(th, make, body, now);
    case InTrace(trace) =>
      var w := new WithTrace(th, trace);
      seen, legal := Run(th, body, now);
      w.Close(th);
    case InDeadline(d) =>
      var w := new WithDeadline(th, d);
      seen, legal := Run(th, body, now);
      w.Close(th);
    case InCensus(h) =>
      var w := new WithCensus(th, h);
      seen, legal := Run(th, body, now);
      w.Close(th);
    case InStatus(x) =>
      var w := new WithStatus(th, x);
      seen, legal := Run(th, body, now);
      w.Close(th);
  }

  /** A WithContext: the Context it allocated is the one it deletes, and the outer one is left alone. */
  method RunWithContext(th: Thread, make: Values -> Values, body: Program, ghost open: seq<Opened>)
    returns (seen: seq<Values>, legal: bool, made: Context, gone: Context)
    modifies th
    ensures th.current == old(th.current) && legal
    ensures fresh(made) && gone == made
    ensures var told := Seen(body, make(old(th.current.Get())), open);
            |seen| == |told| && forall i :: 0 <= i < |seen| ==> seen[i] == told[i].values
    decreases body, 1
  {
    var w := new WithContext(th, make(th.current.Get()));
    made := w.installed;
    var s, l := Run(th, body, open);
    var ok;
    ok, gone := w.Close(th);
    seen, legal := s, l && ok;
  }

  // ---------------------------------------------------------------------------
  // Scopes that are not nested
  // ---------------------------------------------------------------------------

  /** WithContext objects opened and closed in any order, by the numbers of the objects. */
  datatype Event = Open(id: nat) | Close(id: nat)

  /** The thread's pointer and each object's previous_: None is the thread's own context. */
  datatype Pointers = Pointers(current: Option<nat>, previous: map<nat, Option<nat>>)

  function Moved(p: Pointers, e: Event): Pointers {
    match e
    case Open(x) => Pointers(Some(x), p.previous[x := p.current])
    case Close(x) => p.(current := if x in p.previous then p.previous[x] else None)
  }

  /** The pointers after the first n events. */
  function After(events: seq<Event>, n: nat): Pointers
    requires n <= |events|
  {
    if n == 0 then Pointers(None, map[]) else Moved(After(events, n - 1), events[n - 1])
  }

  ghost predicate Happened(events: seq<Event>, n: nat, e: Event)
    requires n <= |events|
  {
    exists i :: 0 <= i < n && events[i] == e
  }

  /** Each object is opened once, and closed at most once and after it was opened. */
  ghost predicate Lifetimes(events: seq<Event>) {
    && (forall i, j :: 0 <= i < j < |events| ==> events[i] != events[j])
    && (forall j :: 0 <= j < |events| && events[j].Close? ==> Happened(events, j, Open(events[j].id)))
  }

  ghost predicate CheckFails(events: seq<Event>, n: nat)
    requires n < |events|
  {
    events[n].Close? && After(events, n).current != Some(events[n].id)
  }

  /** An object was opened at i and has not been closed by n. */
  ghost predicate OpenAt(events: seq<Event>, n: nat, i: int)
    requires n <= |events|
  {
    0 <= i < n && events[i].Open? && !Happened(events, n, Close(events[i].id))
  }

  /** The object closed at n was opened before another one that is still open. */
  ghost predicate Crossing(events: seq<Event>, n: nat)
    requires n < |events|
  {
    events[n].Close? &&
    exists i, k :: 0 <= i < k && OpenAt(events, n, k) && events[i] == Open(events[n].id)
  }

  /** Where the open objects were opened, in order of opening. */
  ghost predicate StackOk(events: seq<Event>, n: nat, st: seq<nat>)
    requires n <= |events|
  {
    && (forall a :: 0 <= a < |st| ==> OpenAt(events, n, st[a]))
    && (forall i :: OpenAt(events, n, i) ==> i in st)
    && (forall a, b :: 0 <= a < b < |st| ==> st[a] < st[b])
  }

  function PointerAt(events: seq<Event>, st: seq<nat>, a: int): Option<nat> {
    if 0 <= a < |st| && st[a] < |events| then Some(events[st[a]].id) else None
  }

  ghost predicate LinkOk(events: seq<Event>, st: seq<nat>, p: Pointers, a: nat)
    requires a < |st|
  {
    var x := PointerAt(events, st, a);
    x != None && x.value in p.previous && p.previous[x.value] == PointerAt(events, st, a - 1)
  }

  /** The pointers chain through the stack. */
  ghost predicate ChainOk(events: seq<Event>, st: seq<nat>, p: Pointers) {
    && p.current == PointerAt(events, st, |st| - 1)
    && (forall a :: 0 <= a < |st| ==> LinkOk(events, st, p, a))
  }

  lemma OpenKeepsStack(events: seq<Event>, n: nat, st: seq<nat>)
    requires Lifetimes(events) && n < |events| && events[n].Open? && StackOk(events, n, st)
    ensures StackOk(events, n + 1, st + [n])
  {
    var x := events[n].id;
    assert !Happened(events, n + 1, Close(x));
    forall i ensures OpenAt(events, n + 1, i) <==> OpenAt(events, n, i) || i == n {
      assert 0 <= i < n && events[i].Open? ==>
          (Happened(events, n + 1, Close(events[i].id)) <==> Happened(events, n, Close(events[i].id)));
    }
    forall i | OpenAt(events, n + 1, i) ensures i in st + [n] {
      assert OpenAt(events, n, i) || i == n;
    }
  }

  lemma OpenKeepsChain(events: seq<Event>, n: nat, st: seq<nat>, p: Pointers)
    requires Lifetimes(events) && n < |events| && events[n].Open? && StackOk(events, n, st) && ChainOk(events, st, p)
    ensures ChainOk(events, st + [n], Moved(p, events[n]))
  {
    forall a | 0 <= a <= |st| ensures LinkOk(events, st + [n], Moved(p, events[n]), a) {
      if a < |st| {
        assert LinkOk(events, st, p, a) && OpenAt(events, n, st[a]);
        assert events[st[a]] != events[n];
      }
    }
  }

  lemma CloseKeepsStack(events: seq<Event>, n: nat, st: seq<nat>)
    requires Lifetimes(events) && n < |events| && events[n].Close? && StackOk(events, n, st)
    requires st != [] && events[st[|st| - 1]].id == events[n].id
    ensures StackOk(events, n + 1, st[..|st| - 1])
  {
    var top := st[|st| - 1];
    assert OpenAt(events, n, top);
    forall i ensures OpenAt(events, n + 1, i) <==> OpenAt(events, n, i) && i != top {
      if 0 <= i < n && events[i].Open? {
        assert events[i] == events[top] <==> i == top;
        assert Happened(events, n + 1, Close(events[i].id)) <==> Happened(events, n, Close(events[i].id)) || i == top;
      }
    }
    var low := st[..|st| - 1];
    forall i | OpenAt(events, n + 1, i) ensures i in low {
      assert OpenAt(events, n, i) && i != top;
      var a :| 0 <= a < |st| && st[a] == i;
      assert low[a] == i;
    }
  }

  lemma CloseKeepsChain(events: seq<Event>, n: nat, st: seq<nat>, p: Pointers)
    requires n < |events| && events[n].Close? && StackOk(events, n, st) && ChainOk(events, st, p)
    requires st != [] && events[st[|st| - 1]].id == events[n].id
    ensures ChainOk(events, st[..|st| - 1], Moved(p, events[n]))
  {
    var low := st[..|st| - 1];
    assert LinkOk(events, st, p, |st| - 1);
    forall a | 0 <= a < |low| ensures LinkOk(events, low, Moved(p, events[n]), a) {
      assert LinkOk(events, st, p, a);
    }
  }

  /** A close is in order exactly if it closes the top of the stack. */
  lemma ClosesTop(events: seq<Event>, n: nat, st: seq<nat>)
    requires Lifetimes(events) && n < |events| && events[n].Close? && StackOk(events, n, st)
    ensures st != [] && (Crossing(events, n) <==> events[st[|st| - 1]].id != events[n].id)
  {
    var x := events[n].id;
    assert Happened(events, n, Open(x));
    var i :| 0 <= i < n && events[i] == Open(x);
    assert OpenAt(events, n, i);
    var a :| 0 <= a < |st| && st[a] == i;
    var top := st[|st| - 1];
    assert OpenAt(events, n, top);
    assert events[top] == events[i] <==> top == i;
  }

  lemma {:induction false} ChainHolds(events: seq<Event>, n: nat) returns (st: seq<nat>)
    requires Lifetimes(events) && n <= |events|
    requires forall j :: 0 <= j < n ==> !CheckFails(events, j)
    ensures StackOk(events, n, st) && ChainOk(events, st, After(events, n))
  {
    if n == 0 {
      st := [];
    } else {
      var low := ChainHolds(events, n - 1);
      var p := After(events, n - 1);
      if events[n - 1].Open? {
        OpenKeepsStack(events, n - 1, low);
        OpenKeepsChain(events, n - 1, low, p);
        st := low + [n - 1];
      } else {
        assert !CheckFails(events, n - 1);
        ClosesTop(events, n - 1, low);
        CloseKeepsStack(events, n - 1, low);
        CloseKeepsChain(events, n - 1, low, p);
        st := low[..|low| - 1];
      }
    }
  }

  /**
   The mis-scoping check fails for the first time exactly where a WithContext is closed
   while one opened after it is still open.
   */
  lemma FirstFailureIsFirstCrossing(events: seq<Event>, n: nat)
    requires Lifetimes(events) && n < |events|
    requires forall j :: 0 <= j < n ==> !CheckFails(events, j)
    ensures CheckFails(events, n) <==> Crossing(events, n)
  {
    var st := ChainHolds(events, n);
    if events[n].Close? {
      ClosesTop(events, n, st);
    }
  }

  /** Over a whole run: the check never fails if and only if scopes close last-in first-out. */
  lemma {:induction false} CheckPassesIffNested(events: seq<Event>, n: nat)
    requires Lifetimes(events) && n <= |events|
    ensures (forall j :: 0 <= j < n ==> !CheckFails(events, j)) <==> (forall j :: 0 <= j < n ==> !Crossing(events, j))
  {
    if n > 0 {
      CheckPassesIffNested(events, n - 1);
      if forall j :: 0 <= j < n - 1 ==> !CheckFails(events, j) {
        FirstFailureIsFirstCrossing(events, n - 1);
      }
    }
  }
}
