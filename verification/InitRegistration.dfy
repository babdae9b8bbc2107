/**
 Registration of module initializers: the tables, one for each type, that the constructors
 of GoogleInitializer and DependencyRegisterer objects build, in whatever order the linker
 happens to run them.
 */
module InitRegistration {
  import opened Options

  /** One constructor call. Objects are identified by number; none is null. */
  datatype Registration =
    | Initializer(name: string, obj: nat)
    | Dependency(name: string, obj: nat, depName: string, depObj: nat)

  datatype Entry = Entry(obj: nat, deps: set<string>, constructed: bool)

  type Table = map<string, Entry>

  /** GetInitializerData: None when two objects claim one name. */
  function Touch(t: Table, name: string, obj: nat): Option<Table> {
    if name !in t then Some(t[name := Entry(obj, {}, false)])
    else if t[name].obj == obj then Some(t)
    else None
  }

  /** One constructor; None when one of its CHECKs stops the process. */
  function Register(t: Table, r: Registration): Option<Table> {
    var t1 := Touch(t, r.name, r.obj);
    if t1.None? then None
    else
      var e := t1.value[r.name];
      match r
      case Initializer(_, _) =>
        if e.constructed then None else Some(t1.value[r.name := e.(constructed := true)])
      case Dependency(_, _, depName, depObj) =>
        Touch(t1.value[r.name := e.(deps := e.deps + {depName})], depName, depObj)
  }

  function RegisterAll(regs: seq<Registration>): Option<Table> {
    if regs == [] then Some(map[])
    else
      var t := RegisterAll(regs[..|regs| - 1]);
      if t.None? then None else Register(t.value, regs[|regs| - 1])
  }

  /** A constructor call of some type. */
  datatype Typed = Typed(kind: string, reg: Registration)

  function TableOf(types: map<string, Table>, kind: string): Table {
    if kind in types then types[kind] else map[]
  }

  /** All constructors of a program, in the order they run. */
  function RegisterTypes(regs: seq<Typed>): Option<map<string, Table>> {
    if regs == [] then Some(map[])
    else
      var types, last := RegisterTypes(regs[..|regs| - 1]), regs[|regs| - 1];
      if types.None? then None
      else
        var t := Register(TableOf(types.value, last.kind), last.reg);
        if t.None? then None else Some(types.value[last.kind := t.value])
  }

  /** The registrations of one type as the program makes them, one constructor at a time. */
  class Registry {
    var initializerByName: Table
    ghost var history: seq<Registration>

    ghost predicate Valid()
      reads this
    {
      RegisterAll(history) == Some(initializerByName)
    }

    constructor ()
      ensures Valid() && history == []
    {
      initializerByName, history := map[], [];
    }

    /** Finds or makes the record of a name; false when it belongs to another object. */
    method GetInitializerData(name: string, obj: nat) returns (ok: bool)
      modifies this`initializerByName
      ensures Touch(old(initializerByName), name, obj) == if ok then Some(initializerByName) else None
    {
      if name !in initializerByName {
        initializerByName := initializerByName[name := Entry(obj, {}, false)];
      } else if initializerByName[name].obj != obj {
        return false;
      }
      return true;
    }

    method AddInitializer(name: string, obj: nat) returns (ok: bool)
      requires Valid()
      modifies this
      ensures history == old(history) + [Initializer(name, obj)]
      ensures ok ==> Valid()
      ensures ok <==> RegisterAll(history).Some?
    {
      assert (history + [Initializer(name, obj)])[..|history|] == history;
      history := history + [Initializer(name, obj)];
      ok := GetInitializerData(name, obj);
      if !ok {
        return;
      }
      var e := initializerByName[name];
      if e.constructed {
        return false;
      }
      initializerByName := initializerByName[name := e.(constructed := true)];
    }

    method AddDependency(name: string, obj: nat, depName: string, depObj: nat) returns (ok: bool)
      requires Valid()
      modifies this
      ensures history == old(history) + [Dependency(name, obj, depName, depObj)]
      ensures ok ==> Valid()
      ensures ok <==> RegisterAll(history).Some?
    {
      assert (history + [Dependency(name, obj, depName, depObj)])[..|history|] == history;
      history := history + [Dependency(name, obj, depName, depObj)];
      ok := GetInitializerData(name, obj);
      if !ok {
        return;
      }
      var e := initializerByName[name];
      if depName !in e.deps {
        e := e.(deps := e.deps + {depName});
      }
      assert e.deps == initializerByName[name].deps + {depName};
      initializerByName := initializerByName[name := e];
      ok := GetInitializerData(depName, depObj);
    }
  }

  // ---------------------------------------------------------------------------
  // What the table says, without regard to order
  // ---------------------------------------------------------------------------

  /** A registration names this object for this name. */
  predicate Mentions(r: Registration, name: string, obj: nat) {
    (r.name == name && r.obj == obj) || (r.Dependency? && r.depName == name && r.depObj == obj)
  }

  predicate MentionsName(r: Registration, name: string) {
    r.name == name || (r.Dependency? && r.depName == name)
  }

  predicate DependsOn(r: Registration, name: string, dep: string) {
    r.Dependency? && r.name == name && r.depName == dep
  }

  /** No name is claimed by two objects, and no initializer is constructed twice. */
  ghost predicate Consistent(regs: seq<Registration>) {
    && (forall r, q, name, a, b :: r in regs && q in regs && Mentions(r, name, a) && Mentions(q, name, b) ==> a == b)
    && (forall r :: r in regs && r.Initializer? ==> multiset(regs)[r] == 1)
  }

  /** The table records exactly what the registrations say. */
  ghost predicate Describes(t: Table, regs: seq<Registration>) {
    && (forall name :: name in t <==> exists r :: r in regs && MentionsName(r, name))
    && (forall r, name, obj :: r in regs && Mentions(r, name, obj) ==> name in t && t[name].obj == obj)
    && (forall name, dep :: name in t ==> (dep in t[name].deps <==> exists r :: r in regs && DependsOn(r, name, dep)))
    && (forall name :: name in t ==>
          (t[name].constructed <==> exists r :: r in regs && r.Initializer? && r.name == name))
  }

  lemma DescribesKeys(t: Table, front: seq<Registration>, last: Registration, t': Table, name: string)
    requires Describes(t, front) && Register(t, last) == Some(t')
    ensures name in t' <==> exists r :: r in front + [last] && MentionsName(r, name)
    ensures name in t' <==> name in t || MentionsName(last, name)
  {
    var regs := front + [last];
    assert last in regs;
    assert forall r :: r in front ==> r in regs;
    assert forall r :: r in regs ==> r in front || r == last;
  }

  lemma DescribesObjects(t: Table, front: seq<Registration>, last: Registration, t': Table)
    requires Describes(t, front) && Register(t, last) == Some(t')
    ensures forall r, name, obj :: r in front + [last] && Mentions(r, name, obj) ==> name in t' && t'[name].obj == obj
  {
    assert forall r :: r in front + [last] ==> r in front || r == last;
  }

  /** What one registration changes in an entry. */
  lemma RegisterChanges(t: Table, last: Registration, t': Table, name: string)
    requires Register(t, last) == Some(t') && name in t'
    ensures forall dep :: dep in t'[name].deps <==> (name in t && dep in t[name].deps) || DependsOn(last, name, dep)
    ensures t'[name].constructed <==> (name in t && t[name].constructed) || (last.Initializer? && last.name == name)
  {
  }

  lemma DescribesDependency(t: Table, front: seq<Registration>, last: Registration, t': Table,
                            name: string, dep: string)
    requires Describes(t, front) && Register(t, last) == Some(t') && name in t'
    ensures dep in t'[name].deps <==> exists r :: r in front + [last] && DependsOn(r, name, dep)
  {
    var regs := front + [last];
    RegisterChanges(t, last, t', name);
    if name in t && dep in t[name].deps {
      var r :| r in front && DependsOn(r, name, dep);
      assert r in regs;
    }
    if r :| r in regs && DependsOn(r, name, dep) && r != last {
      assert r in front && MentionsName(r, r.name);
    }
    assert last in regs;
  }

  lemma DescribesConstruction(t: Table, front: seq<Registration>, last: Registration, t': Table, name: string)
    requires Describes(t, front) && Register(t, last) == Some(t') && name in t'
    ensures t'[name].constructed <==> exists r :: r in front + [last] && r.Initializer? && r.name == name
  {
    var regs := front + [last];
    assert last in regs;
    RegisterChanges(t, last, t', name);
    if name in t && t[name].constructed {
      var r :| r in front && r.Initializer? && r.name == name;
      assert r in regs;
    }
    if r :| r in regs && r.Initializer? && r.name == name && r != last {
      assert r in front && MentionsName(r, r.name);
    }
  }

  lemma {:induction false} TableDescribes(regs: seq<Registration>)
    requires RegisterAll(regs).Some?
    ensures Describes(RegisterAll(regs).value, regs)
  {
    if regs != [] {
      var front, last := regs[..|regs| - 1], regs[|regs| - 1];
      var t, t' := RegisterAll(front).value, RegisterAll(regs).value;
      TableDescribes(front);
      assert regs == front + [last];
      DescribesObjects(t, front, last, t');
      forall name ensures name in t' <==> exists r :: r in regs && MentionsName(r, name) {
        DescribesKeys(t, front, last, t', name);
      }
      forall name | name in t'
        ensures forall dep :: dep in t'[name].deps <==> exists r :: r in regs && DependsOn(r, name, dep)
        ensures t'[name].constructed <==> exists r :: r in regs && r.Initializer? && r.name == name
      {
        DescribesConstruction(t, front, last, t', name);
        forall dep ensures dep in t'[name].deps <==> exists r :: r in regs && DependsOn(r, name, dep) {
          DescribesDependency(t, front, last, t', name, dep);
        }
      }
    }
  }

  /** A registration fails exactly when it clashes with an earlier one. */
  lemma StepFails(t: Table, front: seq<Registration>, last: Registration)
    requires Describes(t, front) && Consistent(front)
    ensures Register(t, last).None? <==> !Consistent(front + [last])
  {
    var regs := front + [last];
    assert last in regs && (forall r :: r in front ==> r in regs);
    assert forall r :: r in regs ==> r in front || r == last;
    assert multiset(regs) == multiset(front) + multiset{last};
    if Register(t, last).Some? {
      StepSucceedsConsistently(t, front, last);
    } else if last.name in t && t[last.name].obj != last.obj {
      Clash(t, front, last, last.name, last.obj);
    } else if last.Initializer? {
      var r :| r in front && r.Initializer? && r.name == last.name;
      assert Mentions(r, r.name, r.obj) && r == last;
      assert multiset(front)[last] >= 1;
    } else if last.depName in t && t[last.depName].obj != last.depObj {
      Clash(t, front, last, last.depName, last.depObj);
    } else {
      assert last.depName == last.name && last.depObj != last.obj;
      assert Mentions(last, last.name, last.obj) && Mentions(last, last.name, last.depObj);
    }
  }

  lemma Clash(t: Table, front: seq<Registration>, last: Registration, name: string, obj: nat)
    requires Describes(t, front) && name in t && t[name].obj != obj && Mentions(last, name, obj)
    ensures !Consistent(front + [last])
  {
    var r :| r in front && MentionsName(r, name);
    var o := if r.name == name then r.obj else r.depObj;
    assert Mentions(r, name, o) && t[name].obj == o;
    assert r in front + [last] && last in front + [last];
  }

  lemma StepSucceedsConsistently(t: Table, front: seq<Registration>, last: Registration)
    requires Describes(t, front) && Consistent(front) && Register(t, last).Some?
    ensures Consistent(front + [last])
  {
    var regs, t' := front + [last], Register(t, last).value;
    DescribesObjects(t, front, last, t');
    assert multiset(regs) == multiset(front) + multiset{last};
    assert forall r :: r in regs ==> r in front || r == last;
    assert last.Initializer? ==> last !in front;
    forall r | r in regs && r.Initializer? ensures multiset(regs)[r] == 1 {
      if r in front { assert multiset(front)[r] == 1; }
    }
  }

  lemma ConsistentPrefix(front: seq<Registration>, last: Registration)
    requires Consistent(front + [last])
    ensures Consistent(front)
  {
    var regs := front + [last];
    assert forall r :: r in front ==> r in regs;
    assert multiset(regs) == multiset(front) + multiset{last};
    forall r | r in front && r.Initializer? ensures multiset(front)[r] == 1 {
      assert multiset(regs)[r] == 1 && multiset(front)[r] >= 1;
    }
  }

  /** Registration goes through exactly when the registrations are consistent as a whole. */
  lemma {:induction false} RegistersIffConsistent(regs: seq<Registration>)
    ensures RegisterAll(regs).Some? <==> Consistent(regs)
  {
    if regs != [] {
      var front, last := regs[..|regs| - 1], regs[|regs| - 1];
      assert regs == front + [last];
      RegistersIffConsistent(front);
      if RegisterAll(front).Some? {
        TableDescribes(front);
        StepFails(RegisterAll(front).value, front, last);
      } else if Consistent(regs) {
        ConsistentPrefix(front, last);
      }
    }
  }

  lemma DescriptionIsUnique(t: Table, t': Table, regs: seq<Registration>)
    requires Describes(t, regs) && Describes(t', regs)
    ensures t == t'
  {
    forall name | name in t ensures name in t' && t[name] == t'[name] {
      var r :| r in regs && MentionsName(r, name);
      var o := if r.name == name then r.obj else r.depObj;
      assert Mentions(r, name, o);
      assert t[name].deps == t'[name].deps;
    }
    forall name | name in t' ensures name in t {
    }
  }

  /** The table does not depend on the order in which the constructors ran. */
  lemma OrderIsIrrelevant(regs: seq<Registration>, shuffled: seq<Registration>)
    requires multiset(regs) == multiset(shuffled)
    ensures RegisterAll(regs) == RegisterAll(shuffled)
  {
    SameMembers(regs, shuffled);
    RegistersIffConsistent(regs);
    RegistersIffConsistent(shuffled);
    if RegisterAll(regs).Some? {
      TableDescribes(regs);
      TableDescribes(shuffled);
      assert Describes(RegisterAll(shuffled).value, regs);
      DescriptionIsUnique(RegisterAll(regs).value, RegisterAll(shuffled).value, regs);
    }
  }

  lemma SameMembers(regs: seq<Registration>, shuffled: seq<Registration>)
    requires multiset(regs) == multiset(shuffled)
    ensures forall r :: r in regs <==> r in shuffled
    ensures Consistent(regs) <==> Consistent(shuffled)
  {
    assert forall r :: r in regs <==> r in multiset(regs);
    assert forall r :: r in shuffled <==> r in multiset(shuffled);
  }

  // ---------------------------------------------------------------------------
  // All types
  // ---------------------------------------------------------------------------

  /** The registrations of one type, in the order they are made. */
  function OfKind(regs: seq<Typed>, kind: string): seq<Registration> {
    if regs == [] then []
    else
      var front, last := OfKind(regs[..|regs| - 1], kind), regs[|regs| - 1];
      if last.kind == kind then front + [last.reg] else front
  }

  /** The table of each type is that of its own registrations. */
  lemma {:induction false} TypesAreTables(regs: seq<Typed>)
    ensures RegisterTypes(regs).Some? <==> forall kind :: RegisterAll(OfKind(regs, kind)).Some?
    ensures RegisterTypes(regs).Some? ==>
              forall kind :: && (kind in RegisterTypes(regs).value <==> OfKind(regs, kind) != [])
                             && RegisterAll(OfKind(regs, kind)) == Some(TableOf(RegisterTypes(regs).value, kind))
  {
    if regs != [] {
      var front, last := regs[..|regs| - 1], regs[|regs| - 1];
      TypesAreTables(front);
      forall kind ensures OfKind(regs, kind) == OfKind(front, kind) + if kind == last.kind then [last.reg] else [] {
      }
      var own := OfKind(front, last.kind);
      assert (own + [last.reg])[..|own|] == own;
      if RegisterTypes(front).None? {
        var kind :| RegisterAll(OfKind(front, kind)).None?;
        assert RegisterAll(OfKind(regs, kind)).None?;
      } else {
        assert RegisterAll(OfKind(regs, last.kind))
            == Register(TableOf(RegisterTypes(front).value, last.kind), last.reg);
      }
    }
  }

  lemma {:induction false} KindCounts(regs: seq<Typed>, kind: string, r: Registration)
    ensures multiset(OfKind(regs, kind))[r] == multiset(regs)[Typed(kind, r)]
  {
    if regs != [] {
      var front, last := regs[..|regs| - 1], regs[|regs| - 1];
      KindCounts(front, kind, r);
      assert regs == front + [last];
    }
  }

  lemma KindIgnoresOrder(regs: seq<Typed>, shuffled: seq<Typed>, kind: string)
    requires multiset(regs) == multiset(shuffled)
    ensures RegisterAll(OfKind(regs, kind)) == RegisterAll(OfKind(shuffled, kind))
    ensures OfKind(regs, kind) == [] <==> OfKind(shuffled, kind) == []
  {
    var a, b := OfKind(regs, kind), OfKind(shuffled, kind);
    forall r ensures multiset(a)[r] == multiset(b)[r] {
      KindCounts(regs, kind, r);
      KindCounts(shuffled, kind, r);
    }
    assert multiset(a) == multiset(b);
    assert |a| == |multiset(a)| && |b| == |multiset(b)|;
    OrderIsIrrelevant(a, b);
  }

  /** However the linker orders the constructors of all types, the result is the same. */
  lemma TypesIgnoreOrder(regs: seq<Typed>, shuffled: seq<Typed>)
    requires multiset(regs) == multiset(shuffled)
    ensures RegisterTypes(regs) == RegisterTypes(shuffled)
  {
    TypesAreTables(regs);
    TypesAreTables(shuffled);
    forall kind ensures RegisterAll(OfKind(regs, kind)) == RegisterAll(OfKind(shuffled, kind)) {
      KindIgnoresOrder(regs, shuffled, kind);
    }
    if RegisterTypes(regs).Some? {
      var ts: map<string, Table>, us: map<string, Table> := RegisterTypes(regs).value, RegisterTypes(shuffled).value;
      forall kind ensures (kind in ts <==> kind in us) && TableOf(ts, kind) == TableOf(us, kind) {
        KindIgnoresOrder(regs, shuffled, kind);
      }
      SameTypes(ts, us);
    }
  }

  lemma SameTypes(ts: map<string, Table>, us: map<string, Table>)
    requires forall kind :: (kind in ts <==> kind in us) && TableOf(ts, kind) == TableOf(us, kind)
    ensures ts == us
  {
    forall kind | kind in ts ensures kind in us && ts[kind] == us[kind] {
      assert TableOf(ts, kind) == TableOf(us, kind);
    }
    forall kind | kind in us ensures kind in ts {
      assert TableOf(ts, kind) == TableOf(us, kind);
    }
  }

  /** Every dependency has a record in the table of its type. */
  ghost predicate Linked(types: map<string, Table>) {
    forall kind, x, d :: kind in types && x in types[kind] && d in types[kind][x].deps ==> d in types[kind]
  }

  lemma RegistrationLinks(regs: seq<Typed>)
    requires RegisterTypes(regs).Some?
    ensures Linked(RegisterTypes(regs).value)
  {
    var types: map<string, Table> := RegisterTypes(regs).value;
    TypesAreTables(regs);
    forall kind, x, d | kind in types && x in types[kind] && d in types[kind][x].deps ensures d in types[kind] {
      var own := OfKind(regs, kind);
      assert RegisterAll(own) == Some(TableOf(types, kind));
      TableDescribes(own);
      var r :| r in own && DependsOn(r, x, d);
      assert MentionsName(r, d);
    }
  }
}
