/** The in-memory replay cache, compared with an ideal unbounded history. */
module ReplayCache {

  type Jti = string
  type Instant = int

  const PRUNE_PERIOD := 100

  datatype Cache = Cache(ttl: nat, capacity: nat, entries: map<Jti, Instant>, callsSincePrune: nat)

  function NewCache(ttl: nat, capacity: nat): Cache { Cache(ttl, capacity, map[], 0) }

  // ----- One call -----

  function Retain(entries: map<Jti, Instant>, now: Instant): map<Jti, Instant>
  {
    map j | j in entries && entries[j] > now :: entries[j]
  }

  function Pruned(c: Cache, now: Instant): Cache
  {
    if c.callsSincePrune + 1 >= PRUNE_PERIOD
    then c.(entries := Retain(c.entries, now), callsSincePrune := 0)
    else c.(callsSincePrune := c.callsSincePrune + 1)
  }

  predicate Hit(c: Cache, jti: Jti, now: Instant)
  {
    jti in c.entries && c.entries[jti] > now
  }

  /** Entries as they stand when room is made for an unseen identifier. */
  function BeforeInsert(c: Cache, jti: Jti, now: Instant): map<Jti, Instant>
  {
    Pruned(c, now).entries - {jti}
  }

  predicate MustEvict(c: Cache, jti: Jti, now: Instant)
  {
    |BeforeInsert(c, jti, now)| >= c.capacity && BeforeInsert(c, jti, now) != map[]
  }

  /** The state after a call; `victim` is the key the map iterator happens to yield first. */
  function AfterSeen(c: Cache, jti: Jti, now: Instant, victim: Jti): Cache
  {
    var p := Pruned(c, now);
    if Hit(p, jti, now) then p
    else
      var kept := BeforeInsert(c, jti, now);
      var roomy := if MustEvict(c, jti, now) then kept - {victim} else kept;
      p.(entries := roomy[jti := now + c.ttl])
  }

  predicate LegalVictim(c: Cache, jti: Jti, now: Instant, victim: Jti)
  {
    !Hit(c, jti, now) && MustEvict(c, jti, now) ==> victim in BeforeInsert(c, jti, now)
  }

  /** Pruning drops only expired entries, so it cannot change an answer. */
  lemma PruneUnobservable(c: Cache, jti: Jti, now: Instant)
    ensures Hit(Pruned(c, now), jti, now) <==> Hit(c, jti, now)
  {
  }

  /** Calls are counted up to the period. */
  function Counted(n: nat): (m: nat) { if n + 1 == PRUNE_PERIOD then 0 else n + 1 }

  /** A call that makes the count reach the period leaves no other expired entry, and the count starts again. */
  lemma PruneHappens(c: Cache, jti: Jti, now: Instant, victim: Jti)
    requires c.callsSincePrune < PRUNE_PERIOD
    ensures var c' := AfterSeen(c, jti, now, victim);
      && c'.callsSincePrune == Counted(c.callsSincePrune)
      && (c'.callsSincePrune == 0 ==> forall j :: j in c'.entries && j != jti ==> c'.entries[j] > now)
  {
  }

  /** The source's cache, updated in place. */
  class JtiCache {
    const ttl: nat
    const capacity: nat
    var entries: map<Jti, Instant>
    var callsSincePrune: nat

    ghost function Contents(): Cache
      reads this
    {
      Cache(ttl, capacity, entries, callsSincePrune)
    }

    constructor (ttl: nat, capacity: nat)
      ensures Contents() == NewCache(ttl, capacity)
    {
      this.ttl := ttl;
      this.capacity := capacity;
      entries := map[];
      callsSincePrune := 0;
    }

    /** Count the call and, every hundredth time, drop what has expired. */
    method Prune(now: Instant)
      modifies this
      ensures Contents() == Pruned(old(Contents()), now)
    {
      callsSincePrune := callsSincePrune + 1;
      if callsSincePrune >= PRUNE_PERIOD {
        entries := Retain(entries, now);
        callsSincePrune := 0;
      }
    }

    /** Remove whichever key the iterator yields when the map is full. */
    method MakeRoom() returns (ghost victim: Jti)
      modifies this`entries
      ensures |old(entries)| >= capacity && old(entries) != map[] ==>
        victim in old(entries) && entries == old(entries) - {victim}
      ensures !(|old(entries)| >= capacity && old(entries) != map[]) ==> entries == old(entries)
    {
      victim := "";
      if |entries| >= capacity {
        if entries != map[] {
          var key :| key in entries;
          victim := key;
          entries := entries - {key};
        }
      }
    }

    /** Each call is one step of the model for some legal victim. */
    method Seen(jti: Jti, now: Instant) returns (replay: bool, ghost victim: Jti)
      modifies this
      ensures replay <==> Hit(old(Contents()), jti, now)
      ensures LegalVictim(old(Contents()), jti, now, victim)
      ensures Contents() == AfterSeen(old(Contents()), jti, now, victim)
    {
      ghost var start := Contents();
      PruneUnobservable(start, jti, now);
      Prune(now);
      if jti in entries {
        if entries[jti] > now {
          return true, "";
        }
        entries := entries - {jti};
      }
      ghost var kept := entries;
      assert kept == BeforeInsert(start, jti, now);
      victim := MakeRoom();
      ghost var roomy := entries;
      assert roomy == if MustEvict(start, jti, now) then kept - {victim} else kept;
      entries := entries[jti := now + ttl];
      replay := false;
      assert Contents() == Pruned(start, now).(entries := roomy[jti := now + ttl]);
    }
  }

  // ----- Runs and the ideal history -----

  /** One call with the clock reading it took and the victim offered to it. */
  datatype Call = Call(jti: Jti, now: Instant, victim: Jti)

  datatype Recording = Recording(jti: Jti, at: Instant)

  /**
   * A cache together with the history of its run: what it recorded, how many live entries it
   * evicted and how often it answered "unseen" within the time-to-live of a recording.
   */
  datatype Run = Run(cache: Cache, history: seq<Recording>, evictions: nat, missed: nat, clock: Instant)

  ghost predicate Within(history: seq<Recording>, ttl: nat, jti: Jti, now: Instant)
  {
    exists i :: 0 <= i < |history| && history[i].jti == jti && now < history[i].at + ttl
  }

  ghost predicate LegalCall(run: Run, call: Call)
  {
    run.clock <= call.now && LegalVictim(run.cache, call.jti, call.now, call.victim)
  }

  ghost predicate Missed(run: Run, call: Call)
  {
    !Hit(run.cache, call.jti, call.now) && Within(run.history, run.cache.ttl, call.jti, call.now)
  }

  /** The call pushes out an entry that had not expired. */
  predicate Evicts(run: Run, call: Call)
  {
    var kept := BeforeInsert(run.cache, call.jti, call.now);
    && !Hit(run.cache, call.jti, call.now) && MustEvict(run.cache, call.jti, call.now)
    && call.victim in kept && kept[call.victim] > call.now
  }

  ghost function Next(run: Run, call: Call): Run
  {
    Run(AfterSeen(run.cache, call.jti, call.now, call.victim),
        if Hit(run.cache, call.jti, call.now) then run.history else run.history + [Recording(call.jti, call.now)],
        run.evictions + (if Evicts(run, call) then 1 else 0),
        run.missed + (if Missed(run, call) then 1 else 0),
        call.now)
  }

  function Start(ttl: nat, capacity: nat, clock: Instant): Run
  {
    Run(NewCache(ttl, capacity), [], 0, 0, clock)
  }

  ghost predicate LegalRun(run: Run, calls: seq<Call>)
    decreases |calls|
  {
    calls == [] || (LegalCall(run, calls[0]) && LegalRun(Next(run, calls[0]), calls[1..]))
  }

  ghost function After(run: Run, calls: seq<Call>): Run
    decreases |calls|
  {
    if calls == [] then run else After(Next(run, calls[0]), calls[1..])
  }

  // ----- Invariants of every run -----

  /** Recordings that are still within their time-to-live but gone from the cache. */
  ghost function Forgotten(run: Run): set<Jti>
  {
    set i | && 0 <= i < |run.history| && run.clock < run.history[i].at + run.cache.ttl
            && run.history[i].jti !in run.cache.entries
      :: run.history[i].jti
  }

  ghost predicate Backed(run: Run)
  {
    forall j :: j in run.cache.entries ==>
      exists i :: 0 <= i < |run.history| && run.history[i] == Recording(j, run.cache.entries[j] - run.cache.ttl)
  }

  /** No recording outlives the entry kept for the same identifier. */
  ghost predicate Latest(run: Run)
  {
    forall i :: 0 <= i < |run.history| && run.history[i].jti in run.cache.entries ==>
      run.history[i].at + run.cache.ttl <= run.cache.entries[run.history[i].jti]
  }

  ghost predicate Past(run: Run)
  {
    forall i :: 0 <= i < |run.history| ==> run.history[i].at <= run.clock
  }

  ghost predicate Inv(run: Run)
  {
    && Backed(run) && Latest(run) && Past(run)
    && |run.cache.entries| <= Max(run.cache.capacity, 1)
    && run.cache.callsSincePrune < PRUNE_PERIOD
    && run.missed + |Forgotten(run)| <= run.evictions
  }

  function Max(a: nat, b: nat): nat { if a >= b then a else b }

  lemma SmallerSet(a: set<Jti>, b: set<Jti>)
    requires a <= b
    ensures |a| <= |b|
  {
    assert b == a + (b - a);
  }

  lemma RetainSmaller(entries: map<Jti, Instant>, now: Instant)
    ensures |Retain(entries, now)| <= |entries|
  {
    assert Retain(entries, now).Keys <= entries.Keys;
    SmallerSet(Retain(entries, now).Keys, entries.Keys);
  }

  lemma RemoveSize(m: map<Jti, Instant>, j: Jti)
    ensures |m - {j}| == if j in m then |m| - 1 else |m|
  {
    assert (m - {j}).Keys == m.Keys - {j};
    if j !in m { assert m - {j} == m; }
  }

  lemma InsertSize(m: map<Jti, Instant>, j: Jti, at: Instant)
    requires j !in m
    ensures |m[j := at]| == |m| + 1
  {
    assert m[j := at].Keys == m.Keys + {j};
  }

  /** Size stays within the bound, whatever is evicted. */
  lemma SizeBounded(c: Cache, jti: Jti, now: Instant, victim: Jti)
    requires |c.entries| <= Max(c.capacity, 1) && LegalVictim(c, jti, now, victim)
    ensures |AfterSeen(c, jti, now, victim).entries| <= Max(c.capacity, 1)
  {
    RetainSmaller(c.entries, now);
    PruneUnobservable(c, jti, now);
    if !Hit(c, jti, now) {
      var kept := BeforeInsert(c, jti, now);
      RemoveSize(Pruned(c, now).entries, jti);
      var roomy := if MustEvict(c, jti, now) then kept - {victim} else kept;
      RemoveSize(kept, victim);
      InsertSize(roomy, jti, now + c.ttl);
      assert |roomy| < Max(c.capacity, 1);
    }
  }

  /** An entry present after a call is the one just recorded or was there before. */
  lemma EntryOrigin(c: Cache, jti: Jti, now: Instant, victim: Jti, j: Jti)
    requires j in AfterSeen(c, jti, now, victim).entries
    ensures var at := AfterSeen(c, jti, now, victim).entries[j];
      if j == jti && !Hit(c, jti, now) then at == now + c.ttl else j in c.entries && at == c.entries[j]
  {
    PruneUnobservable(c, jti, now);
  }

  lemma BackedKept(run: Run, call: Call)
    requires Backed(run)
    ensures Backed(Next(run, call))
  {
    var next := Next(run, call);
    forall j | j in next.cache.entries
      ensures exists i ::
        0 <= i < |next.history| && next.history[i] == Recording(j, next.cache.entries[j] - next.cache.ttl)
    {
      EntryOrigin(run.cache, call.jti, call.now, call.victim, j);
      if !Hit(run.cache, call.jti, call.now) && j == call.jti {
        assert next.history[|run.history|] == Recording(j, call.now);
      } else {
        var i :| 0 <= i < |run.history| && run.history[i] == Recording(j, run.cache.entries[j] - run.cache.ttl);
        assert next.history[i] == run.history[i];
      }
    }
  }

  lemma LatestKept(run: Run, call: Call)
    requires Latest(run) && Past(run) && run.clock <= call.now
    ensures Latest(Next(run, call)) && Past(Next(run, call))
  {
    var next := Next(run, call);
    forall i | 0 <= i < |next.history| && next.history[i].jti in next.cache.entries
      ensures next.history[i].at + next.cache.ttl <= next.cache.entries[next.history[i].jti]
    {
      EntryOrigin(run.cache, call.jti, call.now, call.victim, next.history[i].jti);
    }
  }

  /** What a call leaves forgotten was forgotten before, or is the victim of its eviction. */
  lemma ForgottenElement(run: Run, call: Call, j: Jti)
    requires Latest(run) && run.clock <= call.now && j in Forgotten(Next(run, call))
    ensures j in Forgotten(run) || (Evicts(run, call) && j == call.victim)
    ensures !Hit(run.cache, call.jti, call.now) ==> j != call.jti
  {
    PruneUnobservable(run.cache, call.jti, call.now);
    var next := Next(run, call);
    var i :| 0 <= i < |next.history| && next.history[i].jti == j && j !in next.cache.entries
             && next.clock < next.history[i].at + next.cache.ttl;
    assert i < |run.history| && run.history[i] == next.history[i];
    if j in run.cache.entries {
      assert run.cache.entries[j] > call.now;
      assert j in Pruned(run.cache, call.now).entries;
    }
  }

  lemma MissedWasForgotten(run: Run, call: Call)
    requires Latest(run) && run.clock <= call.now && Missed(run, call)
    ensures call.jti in Forgotten(run)
  {
    var i :| 0 <= i < |run.history| && run.history[i].jti == call.jti && call.now < run.history[i].at + run.cache.ttl;
    assert call.jti !in run.cache.entries;
  }

  lemma BalanceKept(run: Run, call: Call)
    requires Latest(run) && Past(run) && LegalCall(run, call)
    requires run.missed + |Forgotten(run)| <= run.evictions
    ensures var next := Next(run, call); next.missed + |Forgotten(next)| <= next.evictions
  {
    var next := Next(run, call);
    var f, f' := Forgotten(run), Forgotten(next);
    var found := if Hit(run.cache, call.jti, call.now) then {} else {call.jti};
    var lost := if Evicts(run, call) then {call.victim} else {};
    forall j | j in f' ensures j in f - found + lost {
      ForgottenElement(run, call, j);
    }
    LossBound(f, f', found, lost);
    if Missed(run, call) {
      MissedWasForgotten(run, call);
      assert found * f == {call.jti};
    }
  }

  lemma LossBound(f: set<Jti>, f': set<Jti>, found: set<Jti>, lost: set<Jti>)
    requires f' <= f - found + lost
    ensures |f'| <= |f| - |found * f| + |lost|
  {
    SmallerSet(f', f - found + lost);
    assert f == (f - found) + (found * f);
    assert |f - found + lost| <= |f - found| + |lost| by {
      assert f - found + lost == (f - found) + (lost - (f - found));
      SmallerSet(lost - (f - found), lost);
    }
  }

  lemma StepKeepsInv(run: Run, call: Call)
    requires Inv(run) && LegalCall(run, call)
    ensures Inv(Next(run, call))
  {
    BackedKept(run, call);
    LatestKept(run, call);
    SizeBounded(run.cache, call.jti, call.now, call.victim);
    BalanceKept(run, call);
  }

  lemma {:induction false} RunKeepsInv(run: Run, calls: seq<Call>)
    requires Inv(run) && LegalRun(run, calls)
    ensures Inv(After(run, calls))
    decreases |calls|
  {
    if calls != [] {
      StepKeepsInv(run, calls[0]);
      RunKeepsInv(Next(run, calls[0]), calls[1..]);
    }
  }

  function CountAfter(n: nat, calls: nat): (m: nat)
    decreases calls
  {
    if calls == 0 then n else CountAfter(Counted(n), calls - 1)
  }

  lemma {:induction false} CountWraps(n: nat, calls: nat)
    requires n < PRUNE_PERIOD
    ensures CountAfter(n, calls) == (n + calls) % PRUNE_PERIOD
    decreases calls
  {
    if calls > 0 { CountWraps(Counted(n), calls - 1); }
  }

  ghost predicate Shows(run: Run, n: nat) { run.cache.callsSincePrune == n }

  lemma NextShows(run: Run, call: Call, n: nat)
    requires Shows(run, n) && n < PRUNE_PERIOD
    ensures Shows(Next(run, call), Counted(n))
  {
    PruneHappens(run.cache, call.jti, call.now, call.victim);
  }

  lemma {:induction false} CountFollows(run: Run, calls: seq<Call>, n: nat)
    requires Shows(run, n) && n < PRUNE_PERIOD
    ensures Shows(After(run, calls), CountAfter(n, |calls|))
    decreases |calls|
  {
    if calls != [] {
      NextShows(run, calls[0], n);
      CountFollows(Next(run, calls[0]), calls[1..], Counted(n));
    }
  }

  /** The prune period holds over whole runs: every hundredth call prunes, wherever the run is cut. */
  lemma CountedCalls(run: Run, calls: seq<Call>)
    requires run.cache.callsSincePrune < PRUNE_PERIOD
    ensures After(run, calls).cache.callsSincePrune == (run.cache.callsSincePrune + |calls|) % PRUNE_PERIOD
  {
    CountFollows(run, calls, run.cache.callsSincePrune);
    CountWraps(run.cache.callsSincePrune, |calls|);
  }

  lemma StartInv(ttl: nat, capacity: nat, clock: Instant)
    ensures Inv(Start(ttl, capacity, clock))
  {
    assert Forgotten(Start(ttl, capacity, clock)) == {};
  }

  /**
   * Accuracy under eviction, for every run with a non-decreasing clock and every choice of victims:
   * a positive answer is backed by a recording within the time-to-live, misses never outnumber
   * evictions of unexpired entries, and the map stays within max(capacity, 1) entries.
   */
  lemma Accuracy(ttl: nat, capacity: nat, clock: Instant, calls: seq<Call>, jti: Jti, now: Instant)
    requires LegalRun(Start(ttl, capacity, clock), calls)
    ensures var end := After(Start(ttl, capacity, clock), calls);
      && (Hit(end.cache, jti, now) ==> Within(end.history, end.cache.ttl, jti, now))
      && end.missed <= end.evictions
      && |end.cache.entries| <= Max(end.cache.capacity, 1)
  {
    StartInv(ttl, capacity, clock);
    RunKeepsInv(Start(ttl, capacity, clock), calls);
    var end := After(Start(ttl, capacity, clock), calls);
    if Hit(end.cache, jti, now) {
      var i :| 0 <= i < |end.history| && end.history[i] == Recording(jti, end.cache.entries[jti] - end.cache.ttl);
    }
  }

  // ----- Refinement when the cache is large enough -----

  function JtisOf(calls: seq<Call>): set<Jti>
  {
    set i | 0 <= i < |calls| :: calls[i].jti
  }

  /** The ideal answer: seen within the time-to-live; an unseen identifier is recorded. */
  ghost function IdealAnswers(history: seq<Recording>, ttl: nat, calls: seq<Call>): seq<bool>
    decreases |calls|
  {
    if calls == [] then []
    else
      var seen := Within(history, ttl, calls[0].jti, calls[0].now);
      var longer := if seen then history else history + [Recording(calls[0].jti, calls[0].now)];
      [seen] + IdealAnswers(longer, ttl, calls[1..])
  }

  ghost function Answers(run: Run, calls: seq<Call>): seq<bool>
    decreases |calls|
  {
    if calls == [] then [] else [Hit(run.cache, calls[0].jti, calls[0].now)] + Answers(Next(run, calls[0]), calls[1..])
  }

  lemma NoEvictionWithRoom(run: Run, call: Call, universe: set<Jti>)
    requires run.cache.entries.Keys <= universe && call.jti in universe && |universe| <= run.cache.capacity
    ensures !MustEvict(run.cache, call.jti, call.now)
    ensures Next(run, call).cache.entries.Keys <= universe
  {
    var kept := BeforeInsert(run.cache, call.jti, call.now);
    assert kept.Keys <= universe - {call.jti};
    SmallerSet(kept.Keys, universe - {call.jti});
    assert |universe - {call.jti}| == |universe| - 1;
  }

  lemma ExactWithoutEviction(run: Run, jti: Jti, now: Instant)
    requires Inv(run) && run.evictions == 0 && run.clock <= now
    ensures Hit(run.cache, jti, now) <==> Within(run.history, run.cache.ttl, jti, now)
  {
    assert Forgotten(run) == {};
    if Hit(run.cache, jti, now) {
      var i :| 0 <= i < |run.history| && run.history[i] == Recording(jti, run.cache.entries[jti] - run.cache.ttl);
    }
    if Within(run.history, run.cache.ttl, jti, now) {
      var i :| 0 <= i < |run.history| && run.history[i].jti == jti && now < run.history[i].at + run.cache.ttl;
      assert jti in run.cache.entries by {
        assert jti !in run.cache.entries ==> jti in Forgotten(run);
      }
    }
  }

  lemma {:induction false} RefinesFrom(run: Run, calls: seq<Call>, universe: set<Jti>)
    requires Inv(run) && LegalRun(run, calls) && run.evictions == 0
    requires run.cache.entries.Keys <= universe && JtisOf(calls) <= universe && |universe| <= run.cache.capacity
    ensures Answers(run, calls) == IdealAnswers(run.history, run.cache.ttl, calls)
    ensures After(run, calls).evictions == 0
    decreases |calls|
  {
    if calls != [] {
      assert calls[0].jti in JtisOf(calls);
      assert JtisOf(calls[1..]) <= JtisOf(calls);
      NoEvictionWithRoom(run, calls[0], universe);
      ExactWithoutEviction(run, calls[0].jti, calls[0].now);
      StepKeepsInv(run, calls[0]);
      RefinesFrom(Next(run, calls[0]), calls[1..], universe);
    }
  }

  /**
   * Refinement: as long as a run uses at most `capacity` distinct identifiers, its answers are
   * exactly those of an unbounded expiring history. The prune period cannot be observed.
   */
  lemma Refines(ttl: nat, capacity: nat, clock: Instant, calls: seq<Call>)
    requires LegalRun(Start(ttl, capacity, clock), calls) && |JtisOf(calls)| <= capacity
    ensures Answers(Start(ttl, capacity, clock), calls) == IdealAnswers([], ttl, calls)
    ensures After(Start(ttl, capacity, clock), calls).evictions == 0
  {
    StartInv(ttl, capacity, clock);
    RefinesFrom(Start(ttl, capacity, clock), calls, JtisOf(calls));
  }
}
