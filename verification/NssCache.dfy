/**
 The NSS cache: user and group records looked up by key and shared between threads for a
 time. A lookup consults the cache under a lock, asks the system without it, stamps the
 record it made, and then inserts it if no other thread has inserted one meanwhile.

 Calls of Lookup are numbered; a record is known by the call that made it. Every lock
 section and every step outside the lock is a step of its own. Readings of the clock and
 the system's answers are arbitrary.
 */
module NssCache {
  import opened Options

  type Key = nat
  type Data = int
  type Time = int
  type Call = nat
  type Tid = nat

  /** A cache record; the stamp is set last, and expired is the stamp plus the time to live. */
  datatype Record = Record(key: Key, data: Option<Data>, stamp: Option<Time>, expired: Time)

  /** What the system said to a call of LookupFn. */
  datatype Reply = Reply(key: Key, data: Option<Data>)

  datatype Pc =
    | Idle
    | Ask(call: Call, key: Key, ttl: Time)
    | Stamp(call: Call, key: Key, ttl: Time)
    | Insert(call: Call, key: Key)

  /** What a call of Lookup returned, from which record, and by which reading of the clock. */
  datatype Answer = Answer(call: Call, key: Key, data: Option<Data>, record: Call, now: Option<Time>)

  datatype State = State(cache: map<Key, Call>, records: map<Call, Record>, replies: map<Call, Reply>,
                         ttls: map<Call, Time>, pcs: map<Tid, Pc>, next: Call, answers: seq<Answer>)

  const INITIAL := State(map[], map[], map[], map[], map[], 0, [])

  datatype Action =
    | Begin(key: Key, ttl: Time, now: Time)   // the first lock section
    | Reach(data: Option<Data>)               // LookupFn
    | Date(now: Time)                         // stamp the record
    | End                                     // the second lock section, and return

  function PcOf(s: State, t: Tid): Pc {
    if t in s.pcs then s.pcs[t] else Idle
  }

  function RecordOf(s: State, r: Call): Record {
    if r in s.records then s.records[r] else Record(0, None, None, 0)
  }

  predicate Enabled(s: State, t: Tid, a: Action) {
    match a
    case Begin(_, _, _) => PcOf(s, t) == Idle
    case Reach(_) => PcOf(s, t).Ask?
    case Date(_) => PcOf(s, t).Stamp?
    case End => PcOf(s, t).Insert?
  }

  function Next(s: State, t: Tid, a: Action): State
    requires Enabled(s, t, a)
  {
    match a
    case Begin(key, ttl, now) =>
      var c, s1 := s.next, s.(next := s.next + 1, ttls := s.ttls[s.next := ttl]);
      if key !in s.cache then s1.(pcs := s.pcs[t := Ask(c, key, ttl)])
      else
        var r := s.cache[key];
        if now > RecordOf(s, r).expired then s1.(cache := s.cache - {key}, pcs := s.pcs[t := Ask(c, key, ttl)])
        else s1.(answers := s.answers + [Answer(c, key, RecordOf(s, r).data, r, Some(now))])
    case Reach(data) =>
      var p := PcOf(s, t);
      s.(replies := s.replies[p.call := Reply(p.key, data)],
         records := s.records[p.call := Record(p.key, data, None, 0)],
         pcs := s.pcs[t := Stamp(p.call, p.key, p.ttl)])
    case Date(now) =>
      var p := PcOf(s, t);
      s.(records := s.records[p.call := RecordOf(s, p.call).(stamp := Some(now), expired := now + p.ttl)],
         pcs := s.pcs[t := Insert(p.call, p.key)])
    case End =>
      var p := PcOf(s, t);
      s.(cache := if p.key in s.cache then s.cache else s.cache[p.key := p.call],
         answers := s.answers + [Answer(p.call, p.key, RecordOf(s, p.call).data, p.call, None)],
         pcs := s.pcs[t := Idle])
  }

  // ---------------------------------------------------------------------------
  // The invariant
  // ---------------------------------------------------------------------------

  /** A record that is finished says what the system replied to its call, and when it expires. */
  ghost predicate Finished(s: State, r: Call, key: Key) {
    && r in s.records && r in s.replies && r in s.ttls
    && s.replies[r] == Reply(key, s.records[r].data)
    && s.records[r].key == key && s.records[r].stamp != None
    && s.records[r].expired == s.records[r].stamp.value + s.ttls[r]
  }

  ghost predicate PcOk(s: State, p: Pc) {
    match p
    case Idle => true
    case Ask(c, key, ttl) => c < s.next && c !in s.records && c in s.ttls && s.ttls[c] == ttl
    case Stamp(c, key, ttl) =>
      && c < s.next && c in s.records && c in s.replies && c in s.ttls && s.ttls[c] == ttl
      && s.records[c].key == key && s.replies[c] == Reply(key, s.records[c].data)
    case Insert(c, key) => c < s.next && Finished(s, c, key)
  }

  /** A record that was handed to a caller; those in the cache all were. */
  ghost predicate Shared(s: State, r: Call) {
    exists i :: 0 <= i < |s.answers| && s.answers[i].record == r
  }

  ghost predicate AnswerOk(s: State, a: Answer) {
    && Finished(s, a.record, a.key) && a.data == s.records[a.record].data
    && a.record < s.next && a.call < s.next
    && (if a.now == None then a.record == a.call else a.now.value <= s.records[a.record].expired)
  }

  ghost predicate OpsOk(s: State) {
    && (forall t :: t in s.pcs ==> PcOk(s, s.pcs[t]))
    && (forall t, u :: t in s.pcs && u in s.pcs && t != u && s.pcs[t] != Idle && s.pcs[u] != Idle ==>
          s.pcs[t].call != s.pcs[u].call)
    && (forall t :: t in s.pcs && s.pcs[t] != Idle ==> !Shared(s, s.pcs[t].call))
  }

  ghost predicate CacheOk(s: State) {
    && (forall key :: key in s.cache ==> Finished(s, s.cache[key], key) && Shared(s, s.cache[key]))
    && (forall r :: r in s.records ==> r < s.next)
  }

  ghost predicate AnswersOk(s: State) {
    forall i :: 0 <= i < |s.answers| ==> AnswerOk(s, s.answers[i])
  }

  ghost predicate Inv(s: State) {
    OpsOk(s) && CacheOk(s) && AnswersOk(s)
  }

  // ---------------------------------------------------------------------------
  // Every step keeps the invariant
  // ---------------------------------------------------------------------------

  /** Records of other calls stay as they are. */
  ghost predicate Same(s: State, s': State, r: Call) {
    && (r in s'.records <==> r in s.records) && (r in s.records ==> s'.records[r] == s.records[r])
    && (r in s'.replies <==> r in s.replies) && (r in s.replies ==> s'.replies[r] == s.replies[r])
    && (r in s'.ttls <==> r in s.ttls) && (r in s.ttls ==> s'.ttls[r] == s.ttls[r])
  }

  lemma OtherRecordsStay(s: State, t: Tid, a: Action, r: Call)
    requires Enabled(s, t, a) && r < s.next && (PcOf(s, t) != Idle ==> PcOf(s, t).call != r)
    ensures Same(s, Next(s, t, a), r)
  {
  }

  lemma SharedIsOthers(s: State, t: Tid, r: Call)
    requires Inv(s) && Shared(s, r)
    ensures r < s.next && (PcOf(s, t) != Idle ==> PcOf(s, t).call != r)
  {
  }

  /** A record is never modified once it is shared. */
  lemma SharedNeverChanges(s: State, t: Tid, a: Action, r: Call)
    requires Inv(s) && Enabled(s, t, a) && Shared(s, r)
    ensures Same(s, Next(s, t, a), r) && r in s.records && Shared(Next(s, t, a), r)
  {
    SharedIsOthers(s, t, r);
    OtherRecordsStay(s, t, a, r);
    var i :| 0 <= i < |s.answers| && s.answers[i].record == r;
    assert Next(s, t, a).answers[i].record == r;
  }

  lemma OthersStay(s: State, t: Tid, a: Action)
    requires Enabled(s, t, a)
    ensures forall u :: u != t ==> (u in Next(s, t, a).pcs <==> u in s.pcs)
    ensures forall u :: u != t && u in s.pcs ==> Next(s, t, a).pcs[u] == s.pcs[u]
  {
  }

  lemma MoverOk(s: State, t: Tid, a: Action)
    requires CacheOk(s) && PcOk(s, PcOf(s, t)) && Enabled(s, t, a)
    ensures PcOk(Next(s, t, a), PcOf(Next(s, t, a), t))
    ensures PcOf(Next(s, t, a), t) != Idle ==>
              PcOf(Next(s, t, a), t).call == if a.Begin? then s.next else PcOf(s, t).call
  {
    match a
    case Begin(_, _, _) =>
    case Reach(_) =>
    case Date(_) =>
    case End =>
  }

  lemma OthersOk(s: State, t: Tid, a: Action, u: Tid)
    requires Inv(s) && Enabled(s, t, a) && u in s.pcs && u != t
    ensures PcOk(Next(s, t, a), s.pcs[u])
  {
    assert PcOk(s, s.pcs[u]);
    if s.pcs[u] != Idle {
      OtherRecordsStay(s, t, a, s.pcs[u].call);
    }
  }

  lemma CallsStayApart(s: State, t: Tid, a: Action, u: Tid)
    requires Inv(s) && Enabled(s, t, a) && u in s.pcs && u != t && s.pcs[u] != Idle
    requires PcOf(Next(s, t, a), t) != Idle
    ensures PcOf(Next(s, t, a), t).call != s.pcs[u].call
  {
    MoverOk(s, t, a);
    assert PcOk(s, s.pcs[u]);
  }

  lemma CacheKept(s: State, t: Tid, a: Action, key: Key)
    requires Inv(s) && Enabled(s, t, a) && key in Next(s, t, a).cache
    ensures Finished(Next(s, t, a), Next(s, t, a).cache[key], key) && Shared(Next(s, t, a), Next(s, t, a).cache[key])
  {
    var s' := Next(s, t, a);
    var r := s'.cache[key];
    if key in s.cache && s.cache[key] == r {
      SharedNeverChanges(s, t, a, r);
    } else {
      assert PcOk(s, s.pcs[t]);
      assert s'.answers[|s.answers|].record == r;
    }
  }

  /** A finished record stays finished while it is not touched. */
  lemma FinishedStays(s: State, s': State, r: Call, key: Key)
    requires Finished(s, r, key) && Same(s, s', r)
    ensures Finished(s', r, key) && s'.records[r] == s.records[r]
  {
  }

  lemma AnswersOnlyGrow(s: State, t: Tid, a: Action)
    requires Enabled(s, t, a)
    ensures s.answers <= Next(s, t, a).answers && s.next <= Next(s, t, a).next
  {
  }

  lemma OldAnswerOk(s: State, s': State, a: Answer)
    requires AnswerOk(s, a) && Same(s, s', a.record) && s.next <= s'.next
    ensures AnswerOk(s', a)
  {
  }

  lemma AnswersKept(s: State, t: Tid, a: Action, i: nat)
    requires Inv(s) && Enabled(s, t, a) && i < |Next(s, t, a).answers|
    ensures AnswerOk(Next(s, t, a), Next(s, t, a).answers[i])
  {
    AnswersOnlyGrow(s, t, a);
    if i < |s.answers| {
      assert Shared(s, s.answers[i].record);
      SharedNeverChanges(s, t, a, s.answers[i].record);
      OldAnswerOk(s, Next(s, t, a), s.answers[i]);
    } else {
      NewAnswerOk(s, t, a);
    }
  }

  lemma NewAnswerOk(s: State, t: Tid, a: Action)
    requires Inv(s) && Enabled(s, t, a) && |Next(s, t, a).answers| > |s.answers|
    ensures |Next(s, t, a).answers| == |s.answers| + 1 && AnswerOk(Next(s, t, a), Next(s, t, a).answers[|s.answers|])
  {
    if a.Begin? {
      var r := s.cache[a.key];
      SharedNeverChanges(s, t, a, r);
      SharedIsOthers(s, t, r);
      FinishedStays(s, Next(s, t, a), r, a.key);
    } else {
      assert PcOk(s, s.pcs[t]);
    }
  }

  /** Only the end of a call shares a record, and then the call is over. */
  lemma NewlyShared(s: State, t: Tid, a: Action, r: Call)
    requires Inv(s) && Enabled(s, t, a) && Shared(Next(s, t, a), r)
    ensures Shared(s, r) || (a == End && r == PcOf(s, t).call)
  {
    var s' := Next(s, t, a);
    var i :| 0 <= i < |s'.answers| && s'.answers[i].record == r;
    if i < |s.answers| {
      assert s.answers[i].record == r;
    }
  }

  lemma PrivateKept(s: State, t: Tid, a: Action, u: Tid)
    requires Inv(s) && Enabled(s, t, a) && u in Next(s, t, a).pcs && Next(s, t, a).pcs[u] != Idle
    ensures !Shared(Next(s, t, a), Next(s, t, a).pcs[u].call)
  {
    var s' := Next(s, t, a);
    var c := s'.pcs[u].call;
    OthersStay(s, t, a);
    MoverOk(s, t, a);
    if Shared(s', c) {
      NewlyShared(s, t, a, c);
      if Shared(s, c) {
        SharedIsOthers(s, u, c);
      }
    }
  }

  lemma OpsKept(s: State, t: Tid, a: Action)
    requires Inv(s) && Enabled(s, t, a)
    ensures OpsOk(Next(s, t, a))
  {
    var s' := Next(s, t, a);
    OthersStay(s, t, a);
    MoverOk(s, t, a);
    forall u | u in s'.pcs ensures PcOk(s', s'.pcs[u]) && (s'.pcs[u] != Idle ==> !Shared(s', s'.pcs[u].call)) {
      if u != t {
        OthersOk(s, t, a, u);
      }
      if s'.pcs[u] != Idle {
        PrivateKept(s, t, a, u);
      }
    }
    forall u | u in s.pcs && u != t && s.pcs[u] != Idle && PcOf(s', t) != Idle
      ensures PcOf(s', t).call != s.pcs[u].call
    {
      CallsStayApart(s, t, a, u);
    }
  }

  lemma StepKeepsInv(s: State, t: Tid, a: Action)
    requires Inv(s) && Enabled(s, t, a)
    ensures Inv(Next(s, t, a))
  {
    var s' := Next(s, t, a);
    OpsKept(s, t, a);
    forall key | key in s'.cache ensures Finished(s', s'.cache[key], key) && Shared(s', s'.cache[key]) {
      CacheKept(s, t, a, key);
    }
    forall r | r in s'.records ensures r < s'.next {
      NoFutureRecords(s, t, a, r);
    }
    forall i | 0 <= i < |s'.answers| ensures AnswerOk(s', s'.answers[i]) {
      AnswersKept(s, t, a, i);
    }
  }

  lemma NoFutureRecords(s: State, t: Tid, a: Action, r: Call)
    requires Inv(s) && Enabled(s, t, a) && r in Next(s, t, a).records
    ensures r < Next(s, t, a).next
  {
    assert t in s.pcs ==> PcOk(s, s.pcs[t]);
  }

  // ---------------------------------------------------------------------------
  // Whole runs
  // ---------------------------------------------------------------------------

  datatype Step = Step(thread: Tid, action: Action)

  predicate IsRun(s: State, steps: seq<Step>)
    decreases |steps|
  {
    steps == [] ||
    (Enabled(s, steps[0].thread, steps[0].action) && IsRun(Next(s, steps[0].thread, steps[0].action), steps[1..]))
  }

  function After(s: State, steps: seq<Step>): State
    requires IsRun(s, steps)
    decreases |steps|
  {
    if steps == [] then s else After(Next(s, steps[0].thread, steps[0].action), steps[1..])
  }

  lemma {:induction false} RunKeepsInv(s: State, steps: seq<Step>)
    requires Inv(s) && IsRun(s, steps)
    ensures Inv(After(s, steps))
    decreases |steps|
  {
    if steps != [] {
      StepKeepsInv(s, steps[0].thread, steps[0].action);
      RunKeepsInv(Next(s, steps[0].thread, steps[0].action), steps[1..]);
    }
  }

  /** Once handed to a caller, a record stays as it is for the rest of the run. */
  lemma {:induction false} SharedIsForever(s: State, steps: seq<Step>, r: Call)
    requires Inv(s) && IsRun(s, steps) && Shared(s, r)
    ensures r in s.records && r in After(s, steps).records && After(s, steps).records[r] == s.records[r]
    decreases |steps|
  {
    SharedIsOthers(s, 0, r);
    if steps != [] {
      var t, a := steps[0].thread, steps[0].action;
      StepKeepsInv(s, t, a);
      SharedNeverChanges(s, t, a, r);
      SharedIsForever(Next(s, t, a), steps[1..], r);
    }
  }

  lemma InitialInv()
    ensures Inv(INITIAL)
  {
  }

  /**
   Every answer of every run is what the system replied to a call for the same key: to the
   answering call itself, or to one whose record was stamped at most that call's time to
   live before the clock reading that let it be served.
   */
  lemma EveryAnswerIsGenuine(steps: seq<Step>, i: nat)
    requires IsRun(INITIAL, steps) && i < |After(INITIAL, steps).answers|
    ensures var s := After(INITIAL, steps);
            var a := s.answers[i];
            && a.record in s.replies && s.replies[a.record] == Reply(a.key, a.data)
            && a.record in s.records && s.records[a.record].stamp != None && a.record in s.ttls
            && (if a.now == None then a.record == a.call
                else a.now.value - s.records[a.record].stamp.value <= s.ttls[a.record])
  {
    InitialInv();
    RunKeepsInv(INITIAL, steps);
    assert AnswerOk(After(INITIAL, steps), After(INITIAL, steps).answers[i]);
  }

  /** The cache has a record for the key that is no older than its time to live. */
  ghost predicate IsLive(s: State, key: Key, now: Time) {
    && key in s.cache && s.cache[key] in s.records && s.cache[key] in s.ttls
    && s.records[s.cache[key]].stamp != None
    && now - s.records[s.cache[key]].stamp.value <= s.ttls[s.cache[key]]
  }

  /**
   A call is served from the cache exactly if the record there is live, and then from that
   record; otherwise the record is dropped and the system is asked.
   */
  lemma ServedExactlyWhileLive(steps: seq<Step>, t: Tid, key: Key, ttl: Time, now: Time)
    requires IsRun(INITIAL, steps) && Enabled(After(INITIAL, steps), t, Begin(key, ttl, now))
    ensures var s := After(INITIAL, steps);
            var s' := Next(s, t, Begin(key, ttl, now));
            if IsLive(s, key, now) then
              && PcOf(s', t) == Idle && s'.cache == s.cache
              && s'.answers == s.answers + [Answer(s.next, key, s.records[s.cache[key]].data, s.cache[key], Some(now))]
            else
              PcOf(s', t) == Ask(s.next, key, ttl) && key !in s'.cache && s'.answers == s.answers
  {
    InitialInv();
    RunKeepsInv(INITIAL, steps);
    var s := After(INITIAL, steps);
    assert key in s.cache ==> Finished(s, s.cache[key], key);
  }

  /** A thread looks up a key, and looks it up again. */
  function Twice(t: Tid, key: Key, ttl: Time, data: Option<Data>, start: Time, now: Time, later: Time): seq<Step> {
    [Step(t, Begin(key, ttl, start)), Step(t, Reach(data)), Step(t, Date(now)), Step(t, End),
     Step(t, Begin(key, ttl, later))]
  }

  lemma RunOn(s: State, steps: seq<Step>)
    requires steps != [] && Enabled(s, steps[0].thread, steps[0].action)
    requires IsRun(Next(s, steps[0].thread, steps[0].action), steps[1..])
    ensures IsRun(s, steps)
    ensures After(s, steps) == After(Next(s, steps[0].thread, steps[0].action), steps[1..])
  {
  }

  /**
   The second lookup is served from the cache exactly if no more than the time to live has
   passed since the stamp. So a negative time to live, described as none, means that
   records expire at once, and not that they never expire: looked up again in the same
   instant, the key is asked for again.
   */
  lemma ServedAgainExactly(t: Tid, key: Key, ttl: Time, data: Option<Data>, start: Time, now: Time, later: Time)
    ensures var steps := Twice(t, key, ttl, data, start, now, later);
            && IsRun(INITIAL, steps)
            && PcOf(After(INITIAL, steps), t) == if later - now <= ttl then Idle else Ask(1, key, ttl)
    ensures var steps := Twice(t, key, -1, data, start, now, now);
            IsRun(INITIAL, steps) && PcOf(After(INITIAL, steps), t) == Ask(1, key, -1)
  {
    TwiceRuns(t, key, ttl, data, start, now, later);
    TwiceRuns(t, key, -1, data, start, now, now);
  }

  lemma TwiceRuns(t: Tid, key: Key, ttl: Time, data: Option<Data>, start: Time, now: Time, later: Time)
    ensures var steps := Twice(t, key, ttl, data, start, now, later);
            && IsRun(INITIAL, steps)
            && PcOf(After(INITIAL, steps), t) == if later - now <= ttl then Idle else Ask(1, key, ttl)
  {
    var steps := Twice(t, key, ttl, data, start, now, later);
    var s1 := Next(INITIAL, t, steps[0].action);
    assert PcOf(s1, t) == Ask(0, key, ttl);
    var s2 := Next(s1, t, steps[1].action);
    var s3 := Next(s2, t, steps[2].action);
    var s4 := Next(s3, t, steps[3].action);
    assert key in s4.cache && s4.cache[key] == 0 && RecordOf(s4, 0).expired == now + ttl && s4.next == 1;
    RunOn(s4, steps[4..]);
    assert steps[3..][1..] == steps[4..];
    RunOn(s3, steps[3..]);
    assert steps[2..][1..] == steps[3..];
    RunOn(s2, steps[2..]);
    assert steps[1..][1..] == steps[2..];
    RunOn(s1, steps[1..]);
    RunOn(INITIAL, steps);
  }

  /** And no answer of any run comes from such a record, unless the clock ran backwards. */
  lemma NegativeTtlNeverServes(steps: seq<Step>, i: nat)
    requires IsRun(INITIAL, steps) && i < |After(INITIAL, steps).answers|
    requires After(INITIAL, steps).answers[i].now != None
    ensures var s := After(INITIAL, steps);
            var a := s.answers[i];
            && a.record in s.ttls && a.record in s.records && s.records[a.record].stamp != None
            && (s.ttls[a.record] < 0 ==> a.now.value < s.records[a.record].stamp.value)
  {
    EveryAnswerIsGenuine(steps, i);
  }

  // ---------------------------------------------------------------------------
  // The first record in the cache stays until it expires
  // ---------------------------------------------------------------------------

  /**
   What any step of any thread can do to the cache: a record is never replaced by another,
   it is dropped only by a lookup that finds it expired, and it is added only by the end of
   the call that made it.
   */
  lemma CacheChangesOnlySo(steps: seq<Step>, t: Tid, a: Action, key: Key)
    requires IsRun(INITIAL, steps) && Enabled(After(INITIAL, steps), t, a)
    ensures var s, s' := After(INITIAL, steps), Next(After(INITIAL, steps), t, a);
            && (key in s.cache && key in s'.cache ==> s'.cache[key] == s.cache[key])
            && (key in s.cache ==>
                  (key !in s'.cache <==> a.Begin? && a.key == key && !IsLive(s, key, a.now)))
            && (key !in s.cache && key in s'.cache ==>
                  a == End && PcOf(s, t).key == key && s'.cache[key] == PcOf(s, t).call)
  {
    InitialInv();
    RunKeepsInv(INITIAL, steps);
    StepOnCache(After(INITIAL, steps), t, a, key);
  }

  lemma StepOnCache(s: State, t: Tid, a: Action, key: Key)
    requires CacheOk(s) && Enabled(s, t, a)
    ensures var s' := Next(s, t, a);
            && (key in s.cache && key in s'.cache ==> s'.cache[key] == s.cache[key])
            && (key in s.cache ==>
                  (key !in s'.cache <==> a.Begin? && a.key == key && !IsLive(s, key, a.now)))
            && (key !in s.cache && key in s'.cache ==>
                  a == End && PcOf(s, t).key == key && s'.cache[key] == PcOf(s, t).call)
  {
    assert key in s.cache ==> Finished(s, s.cache[key], key);
  }

  /**
   When a call ends its key is in the cache, and leads to that call's record exactly if there
   was none. The caller gets its own record in any case.
   */
  lemma EndLeavesKeyCached(steps: seq<Step>, t: Tid)
    requires IsRun(INITIAL, steps) && Enabled(After(INITIAL, steps), t, End)
    ensures var s, s' := After(INITIAL, steps), Next(After(INITIAL, steps), t, End);
            var p := PcOf(s, t);
            && p.key in s'.cache && (s'.cache[p.key] == p.call <==> p.key !in s.cache)
            && (forall k :: k != p.key ==> (k in s'.cache <==> k in s.cache))
            && p.call in s.replies
            && s'.answers == s.answers + [Answer(p.call, p.key, s.replies[p.call].data, p.call, None)]
  {
    InitialInv();
    RunKeepsInv(INITIAL, steps);
    var s := After(INITIAL, steps);
    var p := s.pcs[t];
    assert PcOk(s, p);
    if p.key in s.cache {
      SharedIsOthers(s, t, s.cache[p.key]);
    }
  }

  /** Every lookup of the key in these steps reads the clock within the life of the record cached in s. */
  ghost predicate InTime(s: State, steps: seq<Step>, key: Key) {
    forall i :: 0 <= i < |steps| && steps[i].action.Begin? && steps[i].action.key == key ==>
      IsLive(s, key, steps[i].action.now)
  }

  lemma StaysInTime(s: State, steps: seq<Step>, key: Key)
    requires Inv(s) && IsRun(s, steps) && steps != [] && key in s.cache && InTime(s, steps, key)
    ensures var s' := Next(s, steps[0].thread, steps[0].action);
            key in s'.cache && s'.cache[key] == s.cache[key] && InTime(s', steps[1..], key)
  {
    var t, a := steps[0].thread, steps[0].action;
    StepOnCache(s, t, a, key);
    SharedNeverChanges(s, t, a, s.cache[key]);
    var s' := Next(s, t, a);
    forall i | 0 <= i < |steps[1..]| && steps[1..][i].action.Begin? && steps[1..][i].action.key == key
      ensures IsLive(s', key, steps[1..][i].action.now)
    {
      assert steps[1..][i] == steps[i + 1];
    }
  }

  /** Over any run in which nobody looks the key up too late, its record stays in the cache. */
  lemma {:induction false} StaysCached(s: State, steps: seq<Step>, key: Key)
    requires Inv(s) && IsRun(s, steps) && key in s.cache && InTime(s, steps, key)
    ensures key in After(s, steps).cache && After(s, steps).cache[key] == s.cache[key]
    decreases |steps|
  {
    if steps != [] {
      StaysInTime(s, steps, key);
      StepKeepsInv(s, steps[0].thread, steps[0].action);
      StaysCached(Next(s, steps[0].thread, steps[0].action), steps[1..], key);
    }
  }

  /**
   Of any number of calls that race for a key, the first to end decides what is cached: its
   record is still there after any further steps, ends of the other calls included, in
   which no lookup of the key comes after its time to live.
   */
  lemma FirstToEndWins(before: seq<Step>, t: Tid, after: seq<Step>)
    requires IsRun(INITIAL, before) && Enabled(After(INITIAL, before), t, End)
    requires PcOf(After(INITIAL, before), t).key !in After(INITIAL, before).cache
    requires var s := After(INITIAL, before);
             IsRun(Next(s, t, End), after) && InTime(Next(s, t, End), after, PcOf(s, t).key)
    ensures var s := After(INITIAL, before);
            var p, last := PcOf(s, t), After(Next(s, t, End), after);
            p.key in last.cache && last.cache[p.key] == p.call
  {
    InitialInv();
    RunKeepsInv(INITIAL, before);
    var s := After(INITIAL, before);
    StepKeepsInv(s, t, End);
    StaysCached(Next(s, t, End), after, PcOf(s, t).key);
  }

  /** Two threads miss on a key, both ask, and both end; then the key is looked up again. */
  function Race(t: Tid, u: Tid, v: Tid, key: Key, ttl: Time, first: Option<Data>, second: Option<Data>,
                start: Time, now1: Time, now2: Time, later: Time): seq<Step> {
    [Step(t, Begin(key, ttl, start)), Step(u, Begin(key, ttl, start)), Step(t, Reach(first)), Step(u, Reach(second)),
     Step(t, Date(now1)), Step(u, Date(now2)), Step(t, End), Step(u, End), Step(v, Begin(key, ttl, later))]
  }

  /** Where the two threads are, with everybody else outside and nothing cached or answered yet. */
  ghost predicate Racing(s: State, t: Tid, u: Tid, pt: Pc, pu: Pc) {
    && PcOf(s, t) == pt && PcOf(s, u) == pu && s.cache == map[] && s.next == 2 && s.answers == []
    && forall w :: w != t && w != u ==> PcOf(s, w) == Idle
  }

  lemma BothMiss(t: Tid, u: Tid, key: Key, ttl: Time, start: Time, steps: seq<Step>) returns (s: State)
    requires t != u && |steps| > 2
    requires steps[0] == Step(t, Begin(key, ttl, start)) && steps[1] == Step(u, Begin(key, ttl, start))
    ensures Racing(s, t, u, Ask(0, key, ttl), Ask(1, key, ttl))
    ensures IsRun(s, steps[2..]) ==> IsRun(INITIAL, steps) && After(INITIAL, steps) == After(s, steps[2..])
  {
    var s1 := Next(INITIAL, t, steps[0].action);
    s := Next(s1, u, steps[1].action);
    if IsRun(s, steps[2..]) {
      assert steps[1..][1..] == steps[2..];
      RunOn(s1, steps[1..]);
      RunOn(INITIAL, steps);
    }
  }

  lemma BothReach(s: State, t: Tid, u: Tid, key: Key, ttl: Time, first: Option<Data>, second: Option<Data>,
                  steps: seq<Step>)
    returns (s': State)
    requires t != u && |steps| > 2 && Racing(s, t, u, Ask(0, key, ttl), Ask(1, key, ttl))
    requires steps[0] == Step(t, Reach(first)) && steps[1] == Step(u, Reach(second))
    ensures Racing(s', t, u, Stamp(0, key, ttl), Stamp(1, key, ttl))
    ensures RecordOf(s', 0) == Record(key, first, None, 0) && RecordOf(s', 1) == Record(key, second, None, 0)
    ensures IsRun(s', steps[2..]) ==> IsRun(s, steps) && After(s, steps) == After(s', steps[2..])
  {
    var s1 := Next(s, t, steps[0].action);
    s' := Next(s1, u, steps[1].action);
    assert forall w :: w != t && w != u ==> PcOf(s', w) == PcOf(s, w);
    if IsRun(s', steps[2..]) {
      assert steps[1..][1..] == steps[2..];
      RunOn(s1, steps[1..]);
      RunOn(s, steps);
    }
  }

  lemma BothDate(s: State, t: Tid, u: Tid, key: Key, ttl: Time, now1: Time, now2: Time, steps: seq<Step>)
    returns (s': State)
    requires t != u && |steps| > 2 && Racing(s, t, u, Stamp(0, key, ttl), Stamp(1, key, ttl))
    requires steps[0] == Step(t, Date(now1)) && steps[1] == Step(u, Date(now2))
    ensures Racing(s', t, u, Insert(0, key), Insert(1, key))
    ensures RecordOf(s', 0) == RecordOf(s, 0).(stamp := Some(now1), expired := now1 + ttl)
    ensures RecordOf(s', 1) == RecordOf(s, 1).(stamp := Some(now2), expired := now2 + ttl)
    ensures IsRun(s', steps[2..]) ==> IsRun(s, steps) && After(s, steps) == After(s', steps[2..])
  {
    var s1 := Next(s, t, steps[0].action);
    s' := Next(s1, u, steps[1].action);
    assert forall w :: w != t && w != u ==> PcOf(s', w) == PcOf(s, w);
    if IsRun(s', steps[2..]) {
      assert steps[1..][1..] == steps[2..];
      RunOn(s1, steps[1..]);
      RunOn(s, steps);
    }
  }

  lemma BothEnd(s: State, t: Tid, u: Tid, key: Key, steps: seq<Step>) returns (s': State)
    requires t != u && |steps| > 2 && Racing(s, t, u, Insert(0, key), Insert(1, key))
    requires steps[0] == Step(t, End) && steps[1] == Step(u, End)
    ensures s'.cache == map[key := 0] && s'.next == 2 && s'.records == s.records && forall w :: PcOf(s', w) == Idle
    ensures s'.answers == [Answer(0, key, RecordOf(s, 0).data, 0, None), Answer(1, key, RecordOf(s, 1).data, 1, None)]
    ensures IsRun(s', steps[2..]) ==> IsRun(s, steps) && After(s, steps) == After(s', steps[2..])
  {
    var s1 := Next(s, t, End);
    s' := Next(s1, u, End);
    assert forall w :: w != t && w != u ==> PcOf(s', w) == PcOf(s, w);
    if IsRun(s', steps[2..]) {
      assert steps[1..][1..] == steps[2..];
      RunOn(s1, steps[1..]);
      RunOn(s, steps);
    }
  }

  /**
   The loser of the race keeps what the system told it, and the cache keeps the winner's
   record: both callers get their own replies, and the third lookup is served with the
   first reply exactly while that one lives.
   */
  lemma RaceIsWonByTheFirst(t: Tid, u: Tid, v: Tid, key: Key, ttl: Time, first: Option<Data>, second: Option<Data>,
                            start: Time, now1: Time, now2: Time, later: Time)
    requires t != u
    ensures var steps := Race(t, u, v, key, ttl, first, second, start, now1, now2, later);
            && IsRun(INITIAL, steps)
            && var s := After(INITIAL, steps);
            var both := [Answer(0, key, first, 0, None), Answer(1, key, second, 1, None)];
            if later - now1 <= ttl
            then s.answers == both + [Answer(2, key, first, 0, Some(later))] && s.cache == map[key := 0]
            else s.answers == both && s.cache == map[] && PcOf(s, v) == Ask(2, key, ttl)
  {
    var steps := Race(t, u, v, key, ttl, first, second, start, now1, now2, later);
    var asking := BothMiss(t, u, key, ttl, start, steps);
    var told := BothReach(asking, t, u, key, ttl, first, second, steps[2..]);
    assert steps[2..][2..] == steps[4..];
    var dated := BothDate(told, t, u, key, ttl, now1, now2, steps[4..]);
    assert steps[4..][2..] == steps[6..];
    var ended := BothEnd(dated, t, u, key, steps[6..]);
    assert steps[6..][2..] == steps[8..];
    assert RecordOf(ended, 0) == RecordOf(dated, 0);
    assert ended.cache - {key} == map[];
    RunOn(ended, steps[8..]);
  }

  // ---------------------------------------------------------------------------
  // The buffer
  // ---------------------------------------------------------------------------

  const INT_MAX := 2147483647
  const START := 1024
  const FAST := 524288    // below this the buffer grows by 8, then by 2

  /** What LookupFn does with a buffer: finds the record, fails, or finds the buffer too small. */
  datatype Attempt = Found | Failed | TooSmall

  function Factor(size: nat): nat {
    if size < FAST then 8 else 2
  }

  function Size(i: nat): nat {
    if i == 0 then START else Size(i - 1) * Factor(Size(i - 1))
  }

  /** The sizes tried: 1 KB, 8 KB, 64 KB, 512 KB, and then doubling up to 1 GB. */
  lemma Sizes()
    ensures forall i :: 0 <= i < 14 ==> START <= Size(i) < INT_MAX / Factor(Size(i))
    ensures Size(14) == 1073741824 && Size(14) >= INT_MAX / Factor(Size(14)) && Size(14) <= INT_MAX
  {
    assert Size(3) == FAST;
    assert Size(6) == 8 * FAST;
    assert Size(9) == 64 * FAST;
    assert Size(12) == 512 * FAST;
  }

  lemma SizeAt(i: nat)
    requires i <= 14
    ensures START <= Size(i) <= INT_MAX && (Size(i) >= INT_MAX / Factor(Size(i)) <==> i == 14)
    ensures i == 14 ==> Size(i) == 1073741824
  {
    Sizes();
  }

  /**
   The growth loop. It stops at the first size that is not too small, or at 1 GB; no size
   leaves the range of int, and there are at most fifteen calls.
   */
  method GrowBuffer(lookup: (nat, nat) -> Attempt) returns (valid: bool, size: nat, calls: nat)
    ensures 1 <= calls <= 15 && size == Size(calls - 1) && START <= size <= INT_MAX
    ensures forall i :: 0 <= i < calls - 1 ==> lookup(i, Size(i)) == TooSmall
    ensures valid <==> lookup(calls - 1, size) == Found
    ensures lookup(calls - 1, size) == TooSmall ==> calls == 15 && size == 1073741824
  {
    valid, size, calls := false, START, 0;
    while true
      invariant 0 <= calls <= 14 && size == Size(calls) && !valid
      invariant forall i :: 0 <= i < calls ==> lookup(i, Size(i)) == TooSmall
      decreases 14 - calls
    {
      SizeAt(calls);
      var attempt := lookup(calls, size);
      calls := calls + 1;
      if attempt == Found {
        valid := true;
        break;
      }
      if attempt != TooSmall {
        break;
      }
      var factor := if size < FAST then 8 else 2;
      if size >= INT_MAX / factor {
        break;
      }
      size := size * factor;
    }
  }
}
