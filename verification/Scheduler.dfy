/**
 The stage-2 scheduler: passes that start AFL jobs while slots are free and stop and collect jobs
 whose time is up. Time may pass between any two readings of the clock, processes may disappear, a job may
 fail to start once its timer runs, and collecting a stopped job may abort.
 Source: src/pmfuzz/stages/stage2.py.
 */
module Scheduler {
  import opened Listings
  import opened PTimers

  /** The slots for testcases and for crash sites. */
  function SlotsTc(cores: nat, injection: bool): nat {
    if injection then (if cores / 2 == 0 then 1 else cores / 2) else cores
  }

  function SlotsCs(cores: nat, injection: bool): nat {
    if injection then (if cores / 2 == 0 then 1 else cores / 2) else 0
  }

  /** The two kinds of job together keep to the cores, except on a single core with failure injection. */
  lemma SlotsWithinCores(cores: nat, injection: bool)
    ensures SlotsTc(cores, injection) + SlotsCs(cores, injection) <= cores <==> (injection ==> cores >= 2)
    ensures !injection ==> SlotsTc(cores, false) == cores && SlotsCs(cores, false) == 0
    ensures injection && cores >= 2 ==> var t := SlotsTc(cores, true); t == SlotsCs(cores, true) && cores - 1 <= t + t
    ensures injection && cores < 2 ==> SlotsTc(cores, true) == SlotsCs(cores, true) == 1
  {
  }

  // ---------- The scheduler's state, on values ----------

  /**
   `timers` are the timers that have been started. `stillborn` are the testcases whose start aborted after
   that, and `cut` those whose job was stopped and whose collection aborted. `peak`, `started` and `collected`
   are the most pid files there ever were at once and the logs of all starts and collections.
   */
  datatype View = View(
    clock: int,
    timers: map<string, Timer>,
    local: set<string>,
    pids: set<string>,
    stillborn: set<string>,
    cut: set<string>,
    peak: nat,
    started: multiset<string>,
    collected: multiset<string>)

  /** The job was started and its time is not up. */
  predicate Active(v: View, n: string) {
    n in v.timers && !v.timers[n].ExpiredAt(v.clock)
  }

  /**
   Pid files, timers and logs agree: a job whose time is not up has a pid file unless its start aborted; every
   testcase was started once if its timer runs and its start did not abort, and never otherwise; each started
   job either has its pid file, or was collected once, or its collection aborted.
   */
  ghost predicate Consistent(v: View, timeout: nat) {
    && v.clock > 0
    && v.pids <= v.timers.Keys <= v.local
    && (forall n :: n in v.timers ==> 0 < v.timers[n].start <= v.clock && v.timers[n].length == timeout)
    && (forall n :: Active(v, n) ==> n in v.pids || n in v.stillborn)
    && Apart(v.timers.Keys, v.stillborn, v.cut, v.pids)
    && v.started == multiset(v.timers.Keys - v.stillborn)
    && v.collected == multiset(Settled(v.timers.Keys, v.stillborn, v.cut, v.pids))
    && |v.pids| <= v.peak
  }

  ghost predicate Apart(keys: set<string>, stillborn: set<string>, cut: set<string>, pids: set<string>) {
    && stillborn <= keys && cut <= keys && pids <= keys
    && stillborn !! pids && cut !! pids && stillborn !! cut
  }

  /** The jobs that were started, stopped and collected. */
  function Settled(keys: set<string>, stillborn: set<string>, cut: set<string>, pids: set<string>): set<string> {
    keys - stillborn - cut - pids
  }

  function Tick(v: View, now: int): View {
    v.(clock := now)
  }

  function Start(v: View, n: string, now: int, timeout: nat): View {
    v.(clock := now,
       timers := v.timers[n := Timer(now, timeout)],
       pids := v.pids + {n},
       started := v.started + multiset{n},
       peak := if |v.pids + {n}| > v.peak then |v.pids + {n}| else v.peak)
  }

  /** The timer runs, and nothing else was started. */
  function FailToStart(v: View, n: string, now: int, timeout: nat): View {
    v.(clock := now, timers := v.timers[n := Timer(now, timeout)], stillborn := v.stillborn + {n})
  }

  function Terminate(v: View, n: string): View {
    if n in v.pids then v.(pids := v.pids - {n}, collected := v.collected + multiset{n}) else v
  }

  /** The job was stopped, and its collection aborted. */
  function CutOff(v: View, n: string): View {
    v.(pids := v.pids - {n}, cut := v.cut + {n})
  }

  /** In times: at most `timeout` ticks have passed since the job's timer was started. */
  lemma ActiveIff(v: View, n: string, timeout: nat)
    requires Consistent(v, timeout)
    ensures Active(v, n) <==> n in v.timers && v.clock - v.timers[n].start <= timeout
  {
  }

  lemma TickConsistent(v: View, now: int, timeout: nat)
    requires Consistent(v, timeout) && now >= v.clock
    ensures Consistent(Tick(v, now), timeout)
    ensures forall n :: Active(Tick(v, now), n) ==> Active(v, n)
  {
    forall n | Active(Tick(v, now), n)
      ensures Active(v, n)
    {
    }
  }

  /** Starting one job makes no other job active. */
  lemma StartActive(v: View, n: string, now: int, timeout: nat, m: string)
    requires now >= v.clock
    ensures m != n && Active(Start(v, n, now, timeout), m) ==> Active(v, m)
  {
  }

  lemma StartSets(keys: set<string>, stillborn: set<string>, cut: set<string>, pids: set<string>, n: string)
    requires Apart(keys, stillborn, cut, pids) && n !in keys
    ensures Apart(keys + {n}, stillborn, cut, pids + {n})
    ensures keys + {n} - stillborn == keys - stillborn + {n}
    ensures Settled(keys + {n}, stillborn, cut, pids + {n}) == Settled(keys, stillborn, cut, pids)
    ensures |pids + {n}| == |pids| + 1
  {
  }

  lemma FailSets(keys: set<string>, stillborn: set<string>, cut: set<string>, pids: set<string>, n: string)
    requires Apart(keys, stillborn, cut, pids) && n !in keys
    ensures Apart(keys + {n}, stillborn + {n}, cut, pids)
    ensures keys + {n} - (stillborn + {n}) == keys - stillborn
    ensures Settled(keys + {n}, stillborn + {n}, cut, pids) == Settled(keys, stillborn, cut, pids)
  {
  }

  lemma StopSets(keys: set<string>, stillborn: set<string>, cut: set<string>, pids: set<string>, n: string)
    requires Apart(keys, stillborn, cut, pids) && n in pids
    ensures Apart(keys, stillborn, cut, pids - {n}) && Apart(keys, stillborn, cut + {n}, pids - {n})
    ensures n !in Settled(keys, stillborn, cut, pids)
    ensures Settled(keys, stillborn, cut, pids - {n}) == Settled(keys, stillborn, cut, pids) + {n}
    ensures Settled(keys, stillborn, cut + {n}, pids - {n}) == Settled(keys, stillborn, cut, pids)
    ensures |pids - {n}| == |pids| - 1
  {
  }

  lemma Added(names: set<string>, n: string)
    requires n !in names
    ensures multiset(names + {n}) == multiset(names) + multiset{n}
  {
  }

  lemma StartTimes(v: View, n: string, now: int, timeout: nat)
    requires Consistent(v, timeout) && now >= v.clock && n !in v.timers
    ensures var t := v.timers[n := Timer(now, timeout)];
            && t.Keys == v.timers.Keys + {n}
            && forall m :: m in t ==> 0 < t[m].start <= now && t[m].length == timeout
  {
  }

  lemma StartConsistent(v: View, n: string, now: int, timeout: nat)
    requires Consistent(v, timeout) && now >= v.clock && n in v.local && n !in v.timers
    ensures Consistent(Start(v, n, now, timeout), timeout)
  {
    var w := Start(v, n, now, timeout);
    StartTimes(v, n, now, timeout);
    StartSets(v.timers.Keys, v.stillborn, v.cut, v.pids, n);
    Added(v.timers.Keys - v.stillborn, n);
    hide Apart, Settled;
    forall m | Active(w, m)
      ensures m in w.pids || m in w.stillborn
    {
      StartActive(v, n, now, timeout, m);
    }
  }

  lemma FailToStartActive(v: View, n: string, now: int, timeout: nat, m: string)
    requires now >= v.clock
    ensures m != n && Active(FailToStart(v, n, now, timeout), m) ==> Active(v, m)
  {
  }

  lemma FailToStartConsistent(v: View, n: string, now: int, timeout: nat)
    requires Consistent(v, timeout) && now >= v.clock && n in v.local && n !in v.timers
    ensures Consistent(FailToStart(v, n, now, timeout), timeout)
    ensures ActiveJobs(FailToStart(v, n, now, timeout)) <= ActiveJobs(v) + {n}
  {
    var w := FailToStart(v, n, now, timeout);
    StartTimes(v, n, now, timeout);
    FailSets(v.timers.Keys, v.stillborn, v.cut, v.pids, n);
    hide Apart, Settled;
    forall m | Active(w, m)
      ensures m in w.pids || m in w.stillborn
      ensures m != n ==> Active(v, m)
    {
      FailToStartActive(v, n, now, timeout, m);
    }
  }

  /** Removing a pid file changes no timer. */
  lemma SameActive(v: View, w: View)
    requires w.clock == v.clock && w.timers == v.timers
    ensures forall n :: Active(w, n) <==> Active(v, n)
    ensures ActiveJobs(w) == ActiveJobs(v)
  {
    assert forall n :: Active(w, n) <==> Active(v, n);
  }

  /** The part of `Consistent` that does not speak of pid files. */
  lemma TimesStay(v: View, w: View, timeout: nat)
    requires Consistent(v, timeout) && w.clock == v.clock && w.timers == v.timers && w.local == v.local
    requires w.stillborn == v.stillborn && w.started == v.started && w.peak == v.peak && w.pids <= v.pids
    requires forall n :: n in v.pids - w.pids ==> !Active(v, n)
    requires Apart(w.timers.Keys, w.stillborn, w.cut, w.pids)
    requires w.collected == multiset(Settled(w.timers.Keys, w.stillborn, w.cut, w.pids))
    ensures Consistent(w, timeout)
  {
    SameActive(v, w);
    SubsetSize(w.pids, v.pids);
    hide Active, Apart, Settled, ActiveJobs;
    forall n | Active(w, n)
      ensures n in w.pids || n in w.stillborn
    {
      assert Active(v, n);
    }
  }

  lemma TerminateConsistent(v: View, n: string, timeout: nat)
    requires Consistent(v, timeout) && !Active(v, n)
    ensures Consistent(Terminate(v, n), timeout) && ActiveJobs(Terminate(v, n)) == ActiveJobs(v)
  {
    var w := Terminate(v, n);
    SameActive(v, w);
    if n in v.pids {
      StopSets(v.timers.Keys, v.stillborn, v.cut, v.pids, n);
      Added(Settled(v.timers.Keys, v.stillborn, v.cut, v.pids), n);
      hide Active, Apart, Settled, ActiveJobs;
      TimesStay(v, w, timeout);
    }
  }

  lemma CutOffConsistent(v: View, n: string, timeout: nat)
    requires Consistent(v, timeout) && !Active(v, n) && n in v.pids
    ensures Consistent(CutOff(v, n), timeout) && ActiveJobs(CutOff(v, n)) == ActiveJobs(v)
  {
    var w := CutOff(v, n);
    SameActive(v, w);
    StopSets(v.timers.Keys, v.stillborn, v.cut, v.pids, n);
    hide Active, Apart, Settled, ActiveJobs;
    TimesStay(v, w, timeout);
  }

  lemma LocalGrows(v: View, names: set<string>, timeout: nat)
    requires Consistent(v, timeout)
    ensures var w := v.(local := v.local + names);
            Consistent(w, timeout) && ActiveJobs(w) == ActiveJobs(v)
  {
    SameActive(v, v.(local := v.local + names));
  }

  /** What one whole pass does: which jobs it starts, which it stops, and what it leaves alone. */
  ghost predicate Passed(v: View, w: View, slots: nat, starts: set<string>, kills: set<string>) {
    && w.local == v.local && w.clock >= v.clock && w.stillborn == v.stillborn && w.cut == v.cut
    && starts <= v.local - v.timers.Keys
    && w.timers.Keys == v.timers.Keys + starts
    && (forall n :: n in v.timers ==> w.timers[n] == v.timers[n])
    && kills <= v.pids
    && w.pids == v.pids - kills + starts
    && w.started == v.started + multiset(starts)
    && w.collected == v.collected + multiset(kills)
    // every job whose time was up before the pass is stopped, and none whose time is not up after it
    && (forall n :: n in v.pids && !Active(v, n) ==> n in kills)
    && (forall n :: n in kills ==> !Active(w, n))
    // no slot stays free while a testcase waits
    && (v.local != w.timers.Keys ==> |starts| + |ActiveJobs(v)| >= slots)
  }

  /** In times: what was stopped had its time up in the end, and what had its time up in the beginning was stopped. */
  ghost predicate StoppedInTime(v: View, w: View, timeout: nat) {
    && (forall n :: n in v.pids - w.pids ==> n in v.timers && w.clock - v.timers[n].start > timeout)
    && (forall n :: n in v.pids && n in v.timers && v.clock - v.timers[n].start > timeout ==> n !in w.pids)
  }

  lemma PassedTimes(v: View, w: View, slots: nat, starts: set<string>, kills: set<string>, timeout: nat)
    requires Consistent(v, timeout) && Passed(v, w, slots, starts, kills)
    ensures StoppedInTime(v, w, timeout)
    ensures (exists n :: n in v.local && n !in w.timers) ==>
              |starts| + |set n | n in v.timers && v.clock - v.timers[n].start <= timeout| >= slots
  {
    forall n | n in v.pids - w.pids
      ensures n in v.timers && w.clock - v.timers[n].start > timeout
    {
      assert !Active(w, n) && w.timers[n] == v.timers[n];
    }
    forall n | n in v.pids && v.clock - v.timers[n].start > timeout
      ensures n !in w.pids
    {
      assert !Active(v, n);
    }
    assert ActiveJobs(v) == set n | n in v.timers && v.clock - v.timers[n].start <= timeout;
  }

  ghost function ActiveJobs(v: View): set<string> {
    set n | n in v.timers && Active(v, n)
  }

  /** The changes a pass has made after the testcases in `done`. */
  ghost predicate Ledger(v: View, w: View, starts: set<string>, kills: set<string>, done: set<string>) {
    && w.local == v.local && w.clock >= v.clock && w.stillborn == v.stillborn && w.cut == v.cut
    && starts <= done && kills <= done && done <= v.local
    && starts <= v.local - v.timers.Keys
    && w.timers.Keys == v.timers.Keys + starts
    && (forall n :: n in v.timers ==> w.timers[n] == v.timers[n])
    && kills <= v.pids
    && w.pids == v.pids - kills + starts
    && w.started == v.started + multiset(starts)
    && w.collected == v.collected + multiset(kills)
  }

  /** The jobs whose time is up, and the slots in use, after the testcases in `done`. */
  ghost predicate Occupancy(v: View, w: View, slots: nat, runCount: nat, counted: set<string>,
                            starts: set<string>, kills: set<string>, done: set<string>) {
    && (forall n :: n in v.pids && n in done && !Active(v, n) ==> n in kills)
    && (forall n :: n in kills ==> !Active(w, n))
    && runCount == |counted| + |starts| <= slots
    && (forall n :: n in counted ==> Active(v, n))
    && (forall n :: Active(w, n) ==> n in counted + starts)
    && (forall n :: n in v.pids && n in done && n !in kills ==> n in counted)
    && (runCount < slots ==> done <= w.timers.Keys)
    && (w.peak <= v.peak || w.peak <= |v.pids| + slots)
  }

  ghost predicate Midway(v: View, w: View, slots: nat, runCount: nat, counted: set<string>,
                         starts: set<string>, kills: set<string>, done: set<string>) {
    Ledger(v, w, starts, kills, done) && Occupancy(v, w, slots, runCount, counted, starts, kills, done)
  }

  /** The count bounds the jobs whose time is not up, from the count on. */
  lemma MidwayStarts(v: View, w: View, slots: nat, runCount: nat, counted: set<string>, timeout: nat)
    requires Consistent(v, timeout) && w.clock >= v.clock && w == Tick(v, w.clock)
    requires |ActiveJobs(v)| <= slots
    requires |counted| == runCount && counted <= v.pids
    requires forall n :: n in counted ==> Active(v, n)
    requires forall n :: Active(w, n) ==> n in counted
    ensures Midway(v, w, slots, runCount, counted, {}, {}, {})
  {
    SubsetSize(counted, ActiveJobs(v));
    assert v.started + multiset({}) == v.started && v.collected + multiset({}) == v.collected;
  }

  lemma MidwayTick(v: View, w: View, now: int, slots: nat, runCount: nat, counted: set<string>,
                   starts: set<string>, kills: set<string>, done: set<string>, timeout: nat)
    requires Consistent(w, timeout) && now >= w.clock
    requires Midway(v, w, slots, runCount, counted, starts, kills, done)
    ensures Midway(v, Tick(w, now), slots, runCount, counted, starts, kills, done)
  {
    TickConsistent(w, now, timeout);
    forall n | n in kills
      ensures !Active(Tick(w, now), n)
    {
      assert !Active(w, n);
    }
  }

  lemma LedgerStarted(v: View, w: View, n: string, starts: set<string>, kills: set<string>, done: set<string>)
    requires Ledger(v, w, starts, kills, done)
    requires n in v.local && n !in done && n in w.pids
    ensures n in v.pids && Ledger(v, Terminate(w, n), starts, kills + {n}, done + {n})
  {
    LogMore(v.collected, kills, n);
    assert n !in starts && n !in kills;
  }

  lemma OccupancyStarted(v: View, w: View, n: string, slots: nat, runCount: nat, counted: set<string>,
                         starts: set<string>, kills: set<string>, done: set<string>)
    requires Occupancy(v, w, slots, runCount, counted, starts, kills, done)
    requires n !in starts && n in w.timers && (n in v.pids ==> n in kills || n in w.pids)
    requires Active(w, n) ==> Active(v, n)
    ensures var u := if Active(w, n) then w else Terminate(w, n);
            var k := if !Active(w, n) && n in w.pids then kills + {n} else kills;
            Occupancy(v, u, slots, runCount, counted, starts, k, done + {n})
  {
    var u := if Active(w, n) then w else Terminate(w, n);
    assert forall m :: Active(u, m) <==> Active(w, m);
  }

  /** A started testcase is visited: it is stopped if its time is up and it is live. */
  lemma MidwayStarted(v: View, w: View, n: string, slots: nat, runCount: nat, counted: set<string>,
                      starts: set<string>, kills: set<string>, done: set<string>)
    requires Midway(v, w, slots, runCount, counted, starts, kills, done)
    requires n in v.local && n !in done && n in w.timers
    ensures var u := if Active(w, n) then w else Terminate(w, n);
            var k := if !Active(w, n) && n in w.pids then kills + {n} else kills;
            Midway(v, u, slots, runCount, counted, starts, k, done + {n})
  {
    assert n !in starts && n in v.timers && w.timers[n] == v.timers[n];
    OccupancyStarted(v, w, n, slots, runCount, counted, starts, kills, done);
    hide Occupancy;
    if !Active(w, n) && n in w.pids {
      LedgerStarted(v, w, n, starts, kills, done);
    }
  }

  lemma LedgerNewStarted(v: View, w: View, n: string, now: int,
                         starts: set<string>, kills: set<string>, done: set<string>, timeout: nat)
    requires now >= w.clock
    requires Ledger(v, w, starts, kills, done)
    requires n in v.local && n !in done && n !in w.timers
    ensures Ledger(v, Start(w, n, now, timeout), starts + {n}, kills, done + {n})
  {
    var u := Start(w, n, now, timeout);
    LogMore(v.started, starts, n);
    AddedToBoth(v.timers.Keys, starts, n);
    AddedToBoth(v.pids - kills, starts, n);
    StartKeys(w, n, now, timeout);
    forall m | m in v.timers
      ensures u.timers[m] == v.timers[m]
    {
      assert m != n;
    }
  }

  lemma AddedToBoth(a: set<string>, b: set<string>, n: string)
    ensures a + b + {n} == a + (b + {n})
  {
  }

  lemma LogMore(log: multiset<string>, names: set<string>, n: string)
    requires n !in names
    ensures log + multiset(names) + multiset{n} == log + multiset(names + {n})
  {
    assert multiset(names + {n}) == multiset(names) + multiset{n};
  }

  /** The jobs of the pass come on top of those before it, and are no more than the slots. */
  lemma PeakBound(
    v: View, w: View, n: string, now: int, slots: nat, starts: set<string>, kills: set<string>, timeout: nat)
    requires w.pids == v.pids - kills + starts && |starts| < slots
    requires w.peak <= v.peak || w.peak <= |v.pids| + slots
    ensures var u := Start(w, n, now, timeout); u.peak <= v.peak || u.peak <= |v.pids| + slots
  {
    UnionSize(v.pids - kills, starts + {n});
    SubsetSize(v.pids - kills, v.pids);
    assert w.pids + {n} == v.pids - kills + (starts + {n});
  }

  lemma OccupancyNewStarted(v: View, w: View, n: string, now: int, slots: nat, runCount: nat, counted: set<string>,
                            starts: set<string>, kills: set<string>, done: set<string>, timeout: nat)
    requires now >= w.clock
    requires v.pids <= v.timers.Keys <= w.timers.Keys && kills <= v.pids && starts <= w.timers.Keys
    requires Occupancy(v, w, slots, runCount, counted, starts, kills, done)
    requires var u := Start(w, n, now, timeout); u.peak <= v.peak || u.peak <= |v.pids| + slots
    requires n !in done && n !in w.timers && runCount < slots
    ensures Occupancy(v, Start(w, n, now, timeout), slots, runCount + 1, counted, starts + {n}, kills, done + {n})
  {
    var u := Start(w, n, now, timeout);
    assert n !in starts && n !in v.pids && n !in kills;
    StartKeys(w, n, now, timeout);
    forall m
      ensures Active(u, m) ==> m in counted + (starts + {n})
      ensures m in kills ==> !Active(u, m)
    {
      StartActive(w, n, now, timeout, m);
    }
    hide Active, Start;
    assert done + {n} <= u.timers.Keys;
  }

  lemma StartKeys(w: View, n: string, now: int, timeout: nat)
    ensures Start(w, n, now, timeout).timers.Keys == w.timers.Keys + {n}
  {
  }

  /** A testcase that was never started is visited while a slot is free. */
  lemma MidwayNewStarted(v: View, w: View, n: string, now: int, slots: nat, runCount: nat, counted: set<string>,
                         starts: set<string>, kills: set<string>, done: set<string>, timeout: nat)
    requires Consistent(v, timeout) && Consistent(w, timeout) && now >= w.clock
    requires Midway(v, w, slots, runCount, counted, starts, kills, done)
    requires n in v.local && n !in done && n !in w.timers && runCount < slots
    ensures Midway(v, Start(w, n, now, timeout), slots, runCount + 1, counted, starts + {n}, kills, done + {n})
  {
    LedgerNewStarted(v, w, n, now, starts, kills, done, timeout);
    PeakBound(v, w, n, now, slots, starts, kills, timeout);
    OccupancyNewStarted(v, w, n, now, slots, runCount, counted, starts, kills, done, timeout);
  }

  lemma UnionSize(a: set<string>, b: set<string>)
    ensures |a + b| <= |a| + |b|
  {
    assert a + b == (a - b) + b;
    SubsetSize(a - b, a);
  }

  /** A testcase that was never started is visited while no slot is free. */
  lemma MidwayNewWaits(v: View, w: View, n: string, slots: nat, runCount: nat, counted: set<string>,
                       starts: set<string>, kills: set<string>, done: set<string>, timeout: nat)
    requires Consistent(v, timeout)
    requires Midway(v, w, slots, runCount, counted, starts, kills, done)
    requires n in v.local && n !in done && n !in w.timers && runCount >= slots
    ensures Midway(v, w, slots, runCount, counted, starts, kills, done + {n})
  {
    assert n !in v.timers && n !in v.pids;
  }

  /** After the whole listing, the live jobs are among those counted and those started. */
  lemma MidwayEnds(v: View, w: View, slots: nat, runCount: nat, counted: set<string>,
                   starts: set<string>, kills: set<string>, timeout: nat)
    requires Consistent(v, timeout) && Consistent(w, timeout)
    requires Midway(v, w, slots, runCount, counted, starts, kills, v.local)
    ensures Passed(v, w, slots, starts, kills) && |w.pids| <= slots
  {
    SubsetSize(w.pids, counted + starts);
    UnionSize(counted, starts);
    SubsetSize(counted, ActiveJobs(v));
  }

  lemma MidwayNewStartedAtAnyTime(v: View, w: View, n: string, slots: nat, runCount: nat, counted: set<string>,
                                  starts: set<string>, kills: set<string>, done: set<string>, timeout: nat)
    requires Consistent(v, timeout) && Consistent(w, timeout)
    requires Midway(v, w, slots, runCount, counted, starts, kills, done)
    requires n in v.local && n !in done && n !in w.timers && runCount < slots
    ensures n in w.local
    ensures forall now :: now >= w.clock ==>
              Midway(v, Start(w, n, now, timeout), slots, runCount + 1, counted, starts + {n}, kills, done + {n})
  {
    forall now | now >= w.clock
      ensures Midway(v, Start(w, n, now, timeout), slots, runCount + 1, counted, starts + {n}, kills, done + {n})
    {
      MidwayNewStarted(v, w, n, now, slots, runCount, counted, starts, kills, done, timeout);
    }
  }

  /** Every testcase of the local store was started and its time is up. */
  ghost predicate AllDone(v: View) {
    v.timers.Keys == v.local && forall n :: n in v.local ==> !Active(v, n)
  }

  /** `completed` after the testcases in `done`. */
  ghost predicate Checked(v: View, w: View, done: set<string>) {
    forall n :: n in done ==> n in v.timers && !Active(w, n)
  }

  lemma CheckStep(v: View, w: View, x: View, n: string, result: bool, done: set<string>, timeout: nat)
    requires Consistent(w, timeout) && w.clock >= v.clock && w == Tick(v, w.clock)
    requires x.clock >= w.clock && x == Tick(w, x.clock)
    requires Checked(v, w, done)
    requires result <==> n in x.timers && !Active(x, n)
    ensures result ==> Checked(v, x, done + {n})
    ensures !result ==> n !in v.timers || Active(v, n)
  {
    TickConsistent(w, x.clock, timeout);
  }

  lemma CheckEnds(v: View, w: View, timeout: nat)
    requires Consistent(w, timeout) && w == Tick(v, w.clock) && Checked(v, w, v.local)
    ensures AllDone(w)
  {
    assert w.timers.Keys == w.local;
  }

  /**
   `kill_all` after the testcases in `done`: only jobs were stopped, and every job of a completed stage among
   them.
   */
  ghost predicate Killing(v: View, w: View, done: set<string>) {
    && w.clock >= v.clock && w == v.(clock := w.clock, pids := w.pids, collected := w.collected)
    && w.pids <= v.pids
    && (forall n :: n in v.pids && n !in w.pids ==> !Active(w, n))
    && (forall n :: n in done && n in v.timers && !Active(v, n) ==> n !in w.pids)
  }

  lemma KillStep(v: View, u: View, w: View, n: string, done: set<string>, timeout: nat)
    requires Consistent(u, timeout) && Killing(v, u, done) && n in v.local
    requires w.clock >= u.clock && w == Tick(u, w.clock)
    ensures !Active(w, n) && n in w.timers ==> Killing(v, Terminate(w, n), done + {n})
    ensures Active(w, n) || n !in w.timers ==> Killing(v, w, done + {n})
  {
    TickConsistent(u, w.clock, timeout);
  }

  lemma KillEnds(v: View, w: View, timeout: nat)
    requires Consistent(w, timeout) && Killing(v, w, v.local)
    ensures AllDone(v) ==> w.pids == {} && w.collected == multiset(v.local - v.stillborn - v.cut)
  {
    if AllDone(v) {
      assert w.pids == {};
      assert Settled(w.timers.Keys, w.stillborn, w.cut, w.pids) == v.local - v.stillborn - v.cut;
    }
  }

  lemma KillTimes(v: View, w: View, timeout: nat)
    requires Consistent(v, timeout) && Killing(v, w, v.local)
    ensures StoppedInTime(v, w, timeout)
  {
    forall n | n in v.pids - w.pids
      ensures n in v.timers && w.clock - v.timers[n].start > timeout
    {
      assert !Active(w, n) && w.timers == v.timers;
    }
    forall n | n in v.pids && n in v.timers && v.clock - v.timers[n].start > timeout
      ensures n !in w.pids
    {
      assert !Active(v, n);
    }
  }

  /**
   At every moment of a pass: jobs whose time is not up fit the slots, and there are no more pid files than
   before the pass and slots together.
   */
  lemma MidPassBounds(v: View, w: View, slots: nat, runCount: nat, counted: set<string>,
                      starts: set<string>, kills: set<string>, done: set<string>)
    requires Midway(v, w, slots, runCount, counted, starts, kills, done)
    ensures |ActiveJobs(w)| <= slots && |w.pids| <= |v.pids| + slots
  {
    SubsetSize(ActiveJobs(w), counted + starts);
    UnionSize(counted, starts);
    SubsetSize(v.pids - kills, v.pids);
    UnionSize(v.pids - kills, starts);
  }

  /** A start that aborts in a pass leaves at most as many jobs whose time is not up as there are slots. */
  lemma FailedStartFits(v: View, w: View, n: string, now: int, slots: nat, runCount: nat, counted: set<string>,
                        starts: set<string>, kills: set<string>, done: set<string>, timeout: nat)
    requires Consistent(w, timeout) && now >= w.clock && n in w.local && n !in w.timers && runCount < slots
    requires Midway(v, w, slots, runCount, counted, starts, kills, done)
    ensures |ActiveJobs(FailToStart(w, n, now, timeout))| <= slots
  {
    FailToStartConsistent(w, n, now, timeout);
    SubsetSize(ActiveJobs(w), counted + starts);
    UnionSize(counted, starts);
    SubsetSize(ActiveJobs(FailToStart(w, n, now, timeout)), ActiveJobs(w) + {n});
    UnionSize(ActiveJobs(w), {n});
  }

  // ---------- Counting ----------

  /** The count after the testcases in `done`. */
  ghost predicate Counting(v: View, w: View, count: nat, counted: set<string>, done: set<string>) {
    && |counted| == count && counted <= done && counted <= v.pids
    && (forall n :: n in counted ==> Active(v, n))
    && (forall n :: n in done && Active(w, n) ==> n in counted)
  }

  lemma CountStarts(v: View)
    ensures Counting(v, v, 0, {}, {})
  {
  }

  lemma CountStep(v: View, w: View, x: View, n: string, live: bool, count: nat, counted: set<string>,
                  done: set<string>, timeout: nat)
    requires Consistent(w, timeout) && w.clock >= v.clock && w == Tick(v, w.clock)
    requires x.clock >= w.clock && x == Tick(w, x.clock)
    requires Counting(v, w, count, counted, done) && n !in done
    requires live <==> Active(x, n)
    ensures if live then Active(v, n) && (n in v.pids ==> Counting(v, x, count + 1, counted + {n}, done + {n}))
            else Counting(v, x, count, counted, done + {n})
  {
    TickConsistent(w, x.clock, timeout);
    if live {
      assert Active(w, n);
      assert n !in counted;
    }
  }

  lemma CountEnds(v: View, w: View, count: nat, counted: set<string>, done: set<string>, timeout: nat)
    requires Consistent(w, timeout)
    requires Counting(v, w, count, counted, done) && done == w.local
    ensures forall n :: Active(w, n) ==> n in counted
    ensures forall n :: n in counted ==> Active(v, n)
    ensures |counted| == count && counted <= v.pids
  {
  }

  lemma SubsetSize(a: set<string>, b: set<string>)
    requires a <= b
    ensures |a| <= |b|
  {
    if a != {} {
      var x :| x in a;
      SubsetSize(a - {x}, b - {x});
    }
  }

  function RunningTimers(files: map<string, Timer>): map<string, Timer> {
    map n | n in files && !files[n].IsNew() :: files[n]
  }

  lemma RunningTimersUpdate(files: map<string, Timer>, n: string, t: Timer)
    requires !t.IsNew()
    ensures RunningTimers(files[n := t]) == RunningTimers(files)[n := t]
  {
  }

  /** Rewriting a timer file, or making one of a new timer, changes no running timer. */
  lemma SameRunning(files: map<string, Timer>, after: map<string, Timer>, n: string)
    requires after == files[n := if n in files then files[n] else CLEARED]
    ensures RunningTimers(after) == RunningTimers(files)
  {
  }

  lemma TickActives(v: View, now: int, timeout: nat)
    requires Consistent(v, timeout) && now >= v.clock
    ensures ActiveJobs(Tick(v, now)) <= ActiveJobs(v) && |ActiveJobs(Tick(v, now))| <= |ActiveJobs(v)|
  {
    TickConsistent(v, now, timeout);
    SubsetSize(ActiveJobs(Tick(v, now)), ActiveJobs(v));
  }

  // ---------- Progress ----------

  /** Testcases that were never started. */
  function Waiting(v: View): set<string> {
    v.local - v.timers.Keys
  }

  lemma SleepExpires(v: View, now: int, timeout: nat)
    requires Consistent(v, timeout) && now > v.clock + timeout
    ensures forall n :: !Active(Tick(v, now), n)
  {
  }

  lemma StartedWait(local: set<string>, keys: set<string>, starts: set<string>)
    requires starts <= local - keys
    ensures local - (keys + starts) == local - keys - starts
    ensures |local - keys| == |local - (keys + starts)| + |starts|
  {
    assert local - keys == (local - (keys + starts)) + starts;
  }

  /** With every job's time up, a pass fills all slots or leaves no testcase waiting. */
  lemma PassProgress(v: View, w: View, slots: nat, starts: set<string>, kills: set<string>)
    requires Passed(v, w, slots, starts, kills) && v.timers.Keys <= v.local && forall n :: !Active(v, n)
    ensures Waiting(w) == Waiting(v) - starts
    ensures Waiting(w) == {} || |Waiting(w)| + slots <= |Waiting(v)|
  {
    StartedWait(v.local, v.timers.Keys, starts);
    assert ActiveJobs(v) == {};
    if v.local == w.timers.Keys {
      assert Waiting(w) == {};
    }
  }

  /** A stage in which every job's time is up is not done only because some testcase waits. */
  lemma NotDoneWaits(v: View, timeout: nat)
    requires Consistent(v, timeout) && forall n :: !Active(v, n)
    ensures !AllDone(v) ==> Waiting(v) != {}
  {
    if Waiting(v) == {} {
      forall n | n in v.local
        ensures n in v.timers.Keys
      {
        assert n !in Waiting(v);
      }
    }
  }

  lemma EveryStartLogged(v: View, timeout: nat)
    requires Consistent(v, timeout) && AllDone(v)
    ensures v.started == multiset(v.local - v.stillborn)
  {
  }

  /** After `passes` passes: the slots of all of them were filled, except possibly in the last. */
  predicate PassBound(passes: nat, slots: nat, waiting: nat, total: nat) {
    && passes >= 1
    && (waiting == 0 || passes * slots + waiting <= total)
    && (passes == 1 || (passes - 1) * slots < total)
  }

  lemma FirstPass(slots: nat, waiting: nat, total: nat)
    requires waiting == 0 || waiting + slots <= total
    ensures PassBound(1, slots, waiting, total)
  {
  }

  lemma PassesBounded(passes: nat, slots: nat, waiting: nat, total: nat)
    requires PassBound(passes, slots, waiting, total)
    ensures passes == 1 || (passes - 1) * slots < total
  {
  }

  lemma PassCount(passes: nat, slots: nat, waiting: nat, after: nat, total: nat)
    requires PassBound(passes, slots, waiting, total) && waiting > 0
    requires after == 0 || after + slots <= waiting
    ensures PassBound(passes + 1, slots, after, total)
  {
    assert (passes + 1) * slots == passes * slots + slots;
  }

  /** How a step, a pass or a stage ended: all but the first are exceptions, which end the session. */
  datatype Outcome = Done | NoPidFile | Gone | StartFailed | CollectionFailed

  /**
   What can go wrong: the processes of `deaths` may disappear at any moment, the starts of `starts` abort
   once the timer runs, and the collections of `collections` abort once the pid file is removed.
   */
  datatype Faults = Faults(deaths: set<string>, starts: set<string>, collections: set<string>)

  /** Of `pids`, the processes that are `gone` cannot be stopped any more. */
  function Stuck(pids: set<string>, gone: set<string>): set<string> {
    pids * gone
  }

  /** Nothing that was started or stopped is among what goes wrong, and nothing stopped was gone before. */
  ghost predicate Spared(f: Faults, gone: set<string>, starts: set<string>, kills: set<string>) {
    starts !! f.starts && kills !! f.collections && kills !! gone
  }

  /** A completed pass that counted only processes that were there has no pid file of one that was gone. */
  lemma NoneStuck(v: View, w: View, slots: nat, runCount: nat, counted: set<string>, starts: set<string>,
                  kills: set<string>, f: Faults, gone: set<string>)
    requires Midway(v, w, slots, runCount, counted, starts, kills, v.local) && v.pids <= v.local
    requires Spared(f, gone, starts, kills) && counted !! gone
    ensures Stuck(v.pids, gone) == {}
  {
    forall n | n in v.pids
      ensures n !in gone
    {
      assert n in kills || n in counted;
    }
  }

  /** What a raise blames: something that goes wrong and that can be looked up afterwards. */
  ghost predicate Blamed(r: Outcome, f: Faults, w: View, gone: set<string>) {
    match r
    case Done => false
    case NoPidFile => w.stillborn != {}
    case Gone => Stuck(w.pids, gone) != {}
    case StartFailed => w.stillborn * f.starts != {}
    case CollectionFailed => w.cut * f.collections != {}
  }

  /** What holds of a pass that may have stopped anywhere. */
  ghost predicate Broken(v: View, w: View, slots: nat) {
    && |ActiveJobs(w)| <= slots && |w.pids| <= |v.pids| + slots
    && (w.peak <= v.peak || w.peak <= |v.pids| + slots)
  }

  lemma MidwayBroken(v: View, w: View, slots: nat, runCount: nat, counted: set<string>,
                     starts: set<string>, kills: set<string>, done: set<string>)
    requires Midway(v, w, slots, runCount, counted, starts, kills, done)
    ensures Broken(v, w, slots)
  {
    MidPassBounds(v, w, slots, runCount, counted, starts, kills, done);
  }

  lemma StartBreaks(v: View, w: View, n: string, slots: nat, runCount: nat, counted: set<string>,
                    starts: set<string>, kills: set<string>, done: set<string>, timeout: nat)
    requires Consistent(w, timeout) && n in w.local && n !in w.timers && runCount < slots
    requires Midway(v, w, slots, runCount, counted, starts, kills, done)
    ensures forall now :: now >= w.clock ==> Broken(v, FailToStart(w, n, now, timeout), slots)
    ensures forall now ::
              n in FailToStart(w, n, now, timeout).stillborn && FailToStart(w, n, now, timeout).pids == w.pids
  {
    MidwayBroken(v, w, slots, runCount, counted, starts, kills, done);
    forall now | now >= w.clock
      ensures Broken(v, FailToStart(w, n, now, timeout), slots)
    {
      FailedStartFits(v, w, n, now, slots, runCount, counted, starts, kills, done, timeout);
    }
  }

  lemma StartKeepsPids(w: View, n: string, now: int, timeout: nat)
    ensures Start(w, n, now, timeout).pids == w.pids + {n}
  {
  }

  lemma StartedHasTimer(v: View, n: string, timeout: nat)
    requires Consistent(v, timeout)
    ensures n in v.pids ==> n in v.timers
    ensures forall now :: now >= v.clock && !Active(v, n) ==> !Active(Tick(v, now), n)
  {
  }

  /** A job that cannot be stopped or collected ends a pass where it is. */
  lemma KillBreaks(v: View, w: View, x: View, n: string, r: Outcome, slots: nat, runCount: nat, counted: set<string>,
                   starts: set<string>, kills: set<string>, done: set<string>, timeout: nat)
    requires Midway(v, w, slots, runCount, counted, starts, kills, done)
    requires x == match r case Gone => w case CollectionFailed => CutOff(w, n) case _ => Terminate(w, n)
    requires ActiveJobs(x) == ActiveJobs(w)
    ensures r.Gone? || r.CollectionFailed? ==> Broken(v, x, slots)
    ensures r.CollectionFailed? ==> n in x.cut
    ensures w.pids - {n} <= x.pids && (r.Gone? ==> x.pids == w.pids)
  {
    MidwayBroken(v, w, slots, runCount, counted, starts, kills, done);
    SubsetSize(x.pids, w.pids);
  }

  lemma KillKeeps(w: View, x: View, n: string, r: Outcome)
    requires x == match r case Gone => w case CollectionFailed => CutOff(w, n) case _ => Terminate(w, n)
    ensures w.pids - x.pids <= {n} && x.stillborn == w.stillborn && x.local == w.local
    ensures r.CollectionFailed? ==> n in x.cut
  {
  }

  lemma KillingKeeps(v: View, w: View, done: set<string>)
    requires Killing(v, w, done)
    ensures w.stillborn == v.stillborn && w.local == v.local && w.clock >= v.clock
  {
  }

  lemma NewIsNotActive(v: View, n: string)
    ensures Active(v, n) ==> n in v.timers
  {
  }

  /** The testcase a pass stopped at is what its raise blames. */
  lemma BlameOne(r: Outcome, f: Faults, w: View, gone: set<string>, n: string)
    requires match r
             case Gone => n in w.pids && n in gone
             case StartFailed => n in w.stillborn && n in f.starts
             case CollectionFailed => n in w.cut && n in f.collections
             case _ => false
    ensures Blamed(r, f, w, gone)
  {
    match r
    case Gone => assert n in Stuck(w.pids, gone);
    case StartFailed => assert n in w.stillborn * f.starts;
    case CollectionFailed => assert n in w.cut * f.collections;
  }

  /** What is stuck before two steps is still there after both. */
  lemma StuckStays(pids0: set<string>, gone0: set<string>, pids1: set<string>, gone1: set<string>, pids2: set<string>)
    requires Stuck(pids0, gone0) <= pids1 && gone0 <= gone1 && Stuck(pids1, gone1) <= pids2
    ensures Stuck(pids0, gone0) <= pids2
  {
  }

  lemma NoPidMeansStillborn(v: View, n: string, timeout: nat)
    requires Consistent(v, timeout)
    ensures Active(v, n) && n !in v.pids ==> n in v.stillborn
  {
  }

  class Stage2 {
    const coresTc: nat
    const tcTimeout: nat
    const timers: TimerDir
    /** Testcases in the local store. */
    var local: set<string>
    /** Testcases whose AFL run has a pid file. */
    var pids: set<string>
    /** Testcases whose AFL process is no more. */
    var gone: set<string>
    ghost var stillborn: set<string>
    ghost var cut: set<string>
    ghost var peak: nat
    ghost var started: multiset<string>
    ghost var collected: multiset<string>

    ghost function V(): View
      reads this, timers
    {
      View(timers.clock, RunningTimers(timers.files), local, pids, stillborn, cut, peak, started, collected)
    }

    /** The jobs whose time is not up fit the slots, whatever happens. */
    ghost predicate Valid()
      reads this, timers
    {
      Consistent(V(), tcTimeout) && |ActiveJobs(V())| <= coresTc
    }

    constructor (coresTc: nat, tcTimeout: nat, now: int)
      requires now > 0
      ensures Valid() && fresh(timers) && this.coresTc == coresTc && this.tcTimeout == tcTimeout
      ensures V() == View(now, map[], {}, {}, {}, {}, 0, multiset{}, multiset{}) && gone == {}
    {
      this.coresTc := coresTc;
      this.tcTimeout := tcTimeout;
      timers := new TimerDir(now);
      local, pids, gone, stillborn, cut := {}, {}, {}, {}, {};
      peak := 0;
      started, collected := multiset{}, multiset{};
      new;
      assert ActiveJobs(V()) == {};
    }

    /** New testcases reach the local store. */
    method UpdateLocal(names: set<string>)
      requires Valid()
      modifies this`local
      ensures Valid() && V() == old(V()).(local := old(local) + names)
    {
      ghost var v := V();
      local := local + names;
      LocalGrows(v, names, tcTimeout);
      hide Consistent, ActiveJobs, RunningTimers;
    }

    /** Listing the local store. */
    method ListLocal() returns (list: seq<string>)
      ensures Lists(list, local)
    {
      list := [];
      var rest := local;
      while rest != {}
        invariant rest <= local
        invariant Lists(list, local - rest)
        decreases rest
      {
        var n :| n in rest;
        list := list + [n];
        rest := rest - {n};
      }
      assert local - rest == local;
    }

    /** A process of one of these testcases disappears. */
    method Die(n: string)
      modifies this`gone
      ensures gone == old(gone) + {n} && V() == old(V()) && (old(Valid()) ==> Valid())
    {
      gone := gone + {n};
    }

    /** Starts the timer of a testcase. */
    method StartTimer(n: string, timer: PTimer)
      requires timer.dir == timers && timer.name == n && timer.Synced() && timers.clock > 0
      modifies timer, timers
      ensures timers.clock >= old(timers.clock)
      ensures V() == old(V()).(clock := timers.clock, timers := old(V()).timers[n := Timer(timers.clock, tcTimeout)])
    {
      ghost var files := timers.files;
      hide RunningTimers;
      timer.StartNew(tcTimeout);
      RunningTimersUpdate(files, n, Timer(timers.clock, tcTimeout));
    }

    /** The AFL process was started, and its pid file is there. */
    method WritePidFile(n: string)
      modifies this`pids, this`started, this`peak
      ensures V() == old(V()).(pids := old(pids) + {n}, started := old(started) + multiset{n},
                               peak := if |old(pids) + {n}| > old(peak) then |old(pids) + {n}| else old(peak))
    {
      pids := pids + {n};
      started := started + multiset{n};
      peak := if |pids| > peak then |pids| else peak;
    }

    /** Starts the AFL job of a testcase whose timer is new. The timer runs before anything can abort. */
    method StartTestcase(n: string, timer: PTimer, f: Faults) returns (r: Outcome)
      requires Consistent(V(), tcTimeout) && n in local && n !in V().timers
      requires timer.dir == timers && timer.name == n && timer.Synced()
      modifies this`pids, this`stillborn, this`started, this`peak, timer, timers
      ensures Consistent(V(), tcTimeout) && timers.clock >= old(timers.clock)
      ensures r == if n in f.starts then StartFailed else Done
      ensures V() == if r.Done? then Start(old(V()), n, timers.clock, tcTimeout)
                     else FailToStart(old(V()), n, timers.clock, tcTimeout)
    {
      ghost var v := V();
      assert v.clock > 0;
      hide Consistent, RunningTimers, ActiveJobs, Active;
      StartTimer(n, timer);
      if n in f.starts {
        FailToStartConsistent(v, n, timers.clock, tcTimeout);
        stillborn := stillborn + {n};
        return StartFailed;
      }
      StartConsistent(v, n, timers.clock, tcTimeout);
      WritePidFile(n);
      return Done;
    }

    /**
     `_terminate_testcase`: stops and collects a job, if it has a pid file. When the process is gone, stopping
     it raises, and the pid file stays.
     */
    method TerminateTestcase(n: string, f: Faults) returns (r: Outcome)
      requires Consistent(V(), tcTimeout) && !Active(V(), n)
      modifies this`pids, this`cut, this`collected
      ensures Consistent(V(), tcTimeout)
      ensures r == if n !in old(pids) then Done
                   else if n in gone then Gone
                   else if n in f.collections then CollectionFailed
                   else Done
      ensures V() == match r
                     case Gone => old(V())
                     case CollectionFailed => CutOff(old(V()), n)
                     case _ => Terminate(old(V()), n)
      ensures ActiveJobs(V()) == ActiveJobs(old(V()))
      ensures Stuck(old(pids), gone) <= pids
    {
      ghost var v := V();
      TerminateConsistent(v, n, tcTimeout);
      if n in pids {
        CutOffConsistent(v, n, tcTimeout);
      }
      hide Consistent, Active, ActiveJobs, RunningTimers;
      if n in pids {
        if n in gone {
          return Gone;
        }
        pids := pids - {n};
        if n in f.collections {
          cut := cut + {n};
          return CollectionFailed;
        }
        collected := collected + multiset{n};
      }
      return Done;
    }

    /** Reads the timer of one testcase; this may create its file, and time may pass and processes disappear. */
    method ReadTimer(n: string, f: Faults) returns (timer: PTimer, isNew: bool, expired: bool)
      requires Consistent(V(), tcTimeout)
      modifies timers, this`gone
      ensures fresh(timer) && timer.dir == timers && timer.name == n && timer.Synced()
      ensures timers.clock >= old(timers.clock) && V() == Tick(old(V()), timers.clock)
      ensures Consistent(V(), tcTimeout)
      ensures ActiveJobs(V()) <= ActiveJobs(old(V())) && |ActiveJobs(V())| <= |ActiveJobs(old(V()))|
      ensures old(gone) <= gone <= old(gone) + f.deaths
      ensures isNew <==> n !in V().timers
      ensures !isNew ==> (expired <==> !Active(V(), n))
    {
      ghost var v, files := V(), timers.files;
      hide Consistent, ActiveJobs;
      timer := new PTimer(timers, n);
      isNew := timer.IsNew();
      expired := timer.Expired();
      var more: set<string> := *;
      gone := gone + more * f.deaths;
      SameRunning(files, timers.files, n);
      assert V().timers == v.timers;
      TickConsistent(v, timers.clock, tcTimeout);
      TickActives(v, timers.clock, tcTimeout);
    }

    /**
     What the count does with one testcase: a job whose time is not up must have a pid file, and its process
     be there. `before` are the processes that were gone when the count began.
     */
    method CountOne(n: string, count: nat, f: Faults, ghost v: View, ghost counted: set<string>,
                    ghost done: set<string>, ghost before: set<string>)
      returns (r: Outcome, count': nat, ghost counted': set<string>)
      requires Consistent(V(), tcTimeout) && timers.clock >= v.clock && V() == Tick(v, timers.clock)
      requires Counting(v, V(), count, counted, done) && n !in done
      requires before <= gone && counted !! before
      modifies timers, this`gone
      ensures Consistent(V(), tcTimeout) && timers.clock >= old(timers.clock) && V() == Tick(v, timers.clock)
      ensures |ActiveJobs(V())| <= |ActiveJobs(old(V()))|
      ensures old(gone) <= gone <= old(gone) + f.deaths
      ensures r.Done? ==> Counting(v, V(), count', counted', done + {n}) && counted' !! before
      ensures r.NoPidFile? ==> Active(v, n) && n in stillborn
      ensures r.Gone? ==> Active(v, n) && n in Stuck(pids, gone)
      ensures r.Done? || r.NoPidFile? || r.Gone?
    {
      r, count', counted' := Done, count, counted;
      ghost var w := V();
      hide Consistent, Active, Counting, RunningTimers, ActiveJobs;
      var timer, isNew, expired := ReadTimer(n, f);
      ghost var live := !isNew && !expired;
      NewIsNotActive(V(), n);
      CountStep(v, w, V(), n, live, count, counted, done, tcTimeout);
      NoPidMeansStillborn(V(), n, tcTimeout);
      if !isNew && !expired {
        count' := count + 1;
        if n !in pids {
          return NoPidFile, count', counted';
        }
        if n in gone {
          return Gone, count', counted';
        }
        counted' := counted + {n};
      }
    }

    /**
     Counts the jobs whose time is not up. It raises on one without a pid file, whose start aborted, and on one
     whose process is gone.
     */
    method GetRunCount(list: seq<string>, f: Faults) returns (r: Outcome, count: nat, ghost counted: set<string>)
      requires Consistent(V(), tcTimeout) && Lists(list, local)
      modifies timers, this`gone
      ensures Consistent(V(), tcTimeout) && |ActiveJobs(V())| <= |ActiveJobs(old(V()))|
      ensures timers.clock >= old(timers.clock) && V() == Tick(old(V()), timers.clock)
      ensures old(gone) <= gone <= old(gone) + f.deaths
      ensures r.Done? || r.NoPidFile? || r.Gone?
      ensures r.NoPidFile? ==> exists n :: Active(old(V()), n) && n in stillborn
      ensures r.Gone? ==> exists n :: Active(old(V()), n) && n in Stuck(pids, gone)
      ensures r.Done? ==> |counted| == count && counted <= pids && counted !! old(gone)
      ensures r.Done? ==> forall n :: n in counted ==> Active(old(V()), n)
      ensures r.Done? ==> forall n :: Active(V(), n) ==> n in counted
    {
      r, count, counted := Done, 0, {};
      ghost var v := V();
      ghost var done: set<string> := {};
      CountStarts(v);
      SeenAll(list, local);
      hide Consistent, Active, Counting, RunningTimers, Lists, Seen, ActiveJobs;
      var i := 0;
      while i < |list|
        invariant 0 <= i <= |list|
        invariant timers.clock >= v.clock && V() == Tick(v, timers.clock)
        invariant Consistent(V(), tcTimeout) && |ActiveJobs(V())| <= |ActiveJobs(v)|
        invariant old(gone) <= gone <= old(gone) + f.deaths
        invariant done == Seen(list, i) && r.Done?
        invariant Counting(v, V(), count, counted, done) && counted !! old(gone)
      {
        SeenNext(list, local, i);
        r, count, counted := CountOne(list[i], count, f, v, counted, done, old(gone));
        if !r.Done? {
          return;
        }
        done := done + {list[i]};
        i := i + 1;
      }
      CountEnds(v, V(), count, counted, done, tcTimeout);
    }

    /** A testcase with a started timer is visited: its job is stopped and collected once its time is up. */
    method VisitStarted(n: string, expired: bool, runCount: nat, f: Faults, ghost v: View, ghost counted: set<string>,
                        ghost starts: set<string>, ghost kills: set<string>, ghost done: set<string>,
                        ghost before: set<string>)
      returns (r: Outcome, ghost kills': set<string>)
      requires Consistent(v, tcTimeout) && Consistent(V(), tcTimeout)
      requires Midway(v, V(), coresTc, runCount, counted, starts, kills, done)
      requires n in v.local && n !in done && n in V().timers && (expired <==> !Active(V(), n))
      requires before <= gone && Spared(f, before, starts, kills)
      modifies this`pids, this`cut, this`collected
      ensures Consistent(V(), tcTimeout) && Stuck(old(pids), gone) <= pids
      ensures r.Done? ==> Midway(v, V(), coresTc, runCount, counted, starts, kills', done + {n})
      ensures r.Done? ==> Spared(f, before, starts, kills')
      ensures !r.Done? ==> Broken(v, V(), coresTc) && Blamed(r, f, V(), gone) && !r.NoPidFile?
      ensures expired && n in Stuck(old(pids), gone) ==> r.Gone? && pids == old(pids)
    {
      r, kills' := Done, kills;
      hide Midway, Consistent, Active, ActiveJobs, Terminate, CutOff, RunningTimers, Broken, Blamed;
      ghost var w := V();
      MidwayStarted(v, w, n, coresTc, runCount, counted, starts, kills, done);
      if expired {
        kills' := if n in w.pids then kills + {n} else kills;
        r := TerminateTestcase(n, f);
        KillBreaks(v, w, V(), n, r, coresTc, runCount, counted, starts, kills, done, tcTimeout);
        if !r.Done? {
          BlameOne(r, f, V(), gone, n);
        }
      }
    }

    /** A testcase with a new timer is visited: its job is started if a slot is free. */
    method VisitNew(n: string, timer: PTimer, runCount: nat, f: Faults, ghost v: View, ghost counted: set<string>,
                    ghost starts: set<string>, ghost kills: set<string>, ghost done: set<string>,
                    ghost before: set<string>)
      returns (r: Outcome, runCount': nat, ghost starts': set<string>)
      requires Consistent(v, tcTimeout) && Consistent(V(), tcTimeout)
      requires Midway(v, V(), coresTc, runCount, counted, starts, kills, done)
      requires n in v.local && n !in done && n !in V().timers && local == v.local
      requires timer.dir == timers && timer.name == n && timer.Synced()
      requires Spared(f, before, starts, kills)
      modifies this`pids, this`stillborn, this`started, this`peak, timer, timers
      ensures Consistent(V(), tcTimeout) && timers.clock >= old(timers.clock) && old(pids) <= pids
      ensures r.Done? ==> Midway(v, V(), coresTc, runCount', counted, starts', kills, done + {n})
      ensures r.Done? ==> Spared(f, before, starts', kills)
      ensures !r.Done? ==> Broken(v, V(), coresTc) && Blamed(r, f, V(), gone) && !r.NoPidFile?
      ensures runCount < coresTc && n !in f.starts ==>
                r.Done? && pids == old(pids) + {n} && V().timers.Keys == old(V()).timers.Keys + {n}
    {
      r, runCount', starts' := Done, runCount, starts;
      hide Midway, Consistent, Active, ActiveJobs, Start, FailToStart, RunningTimers, Broken, Blamed;
      ghost var w := V();
      if runCount < coresTc {
        MidwayNewStartedAtAnyTime(v, w, n, coresTc, runCount, counted, starts, kills, done, tcTimeout);
        StartBreaks(v, w, n, coresTc, runCount, counted, starts, kills, done, tcTimeout);
        r := StartTestcase(n, timer, f);
        starts' := starts + {n};
        runCount' := runCount + 1;
        StartKeepsPids(w, n, timers.clock, tcTimeout);
        StartKeys(w, n, timers.clock, tcTimeout);
        if !r.Done? {
          BlameOne(r, f, V(), gone, n);
        }
      } else {
        MidwayNewWaits(v, w, n, coresTc, runCount, counted, starts, kills, done, tcTimeout);
      }
    }

    /** What a pass does with one testcase of its listing. `before` are the processes that were gone when it began. */
    method Visit(n: string, runCount: nat, f: Faults, ghost v: View, ghost counted: set<string>,
                 ghost starts: set<string>, ghost kills: set<string>,
                 ghost done: set<string>, ghost before: set<string>)
      returns (r: Outcome, runCount': nat, ghost starts': set<string>, ghost kills': set<string>)
      requires Consistent(v, tcTimeout) && Consistent(V(), tcTimeout)
      requires Midway(v, V(), coresTc, runCount, counted, starts, kills, done)
      requires n in v.local && n !in done && local == v.local
      requires before <= gone && Spared(f, before, starts, kills)
      modifies this`pids, this`gone, this`stillborn, this`cut, this`started, this`collected, this`peak, timers
      ensures Consistent(V(), tcTimeout) && timers.clock >= old(timers.clock) && local == v.local
      ensures old(gone) <= gone <= old(gone) + f.deaths && Stuck(old(pids), old(gone)) <= pids
      ensures r.Done? ==> Midway(v, V(), coresTc, runCount', counted, starts', kills', done + {n})
      ensures r.Done? ==> Spared(f, before, starts', kills')
      ensures !r.Done? ==> Broken(v, V(), coresTc) && Blamed(r, f, V(), gone) && !r.NoPidFile?
      ensures n !in old(V()).timers && runCount < coresTc && n !in f.starts ==>
                r.Done? && pids == old(pids) + {n} && V().timers.Keys == old(V()).timers.Keys + {n}
      ensures n in Stuck(old(pids), old(gone)) && !Active(old(V()), n) ==>
                r.Gone? && pids == old(pids) && V().timers == old(V()).timers
    {
      r, runCount', starts', kills' := Done, runCount, starts, kills;
      hide Midway, Consistent, Active, ActiveJobs, RunningTimers, Broken, Blamed, Spared;
      ghost var u := V();
      StartedHasTimer(u, n, tcTimeout);
      var timer, isNew, expired := ReadTimer(n, f);
      ghost var w := V();
      MidwayTick(v, u, w.clock, coresTc, runCount, counted, starts, kills, done, tcTimeout);
      if !isNew {
        r, kills' := VisitStarted(n, expired, runCount, f, v, counted, starts, kills, done, before);
      } else {
        r, runCount', starts' := VisitNew(n, timer, runCount, f, v, counted, starts, kills, done, before);
      }
    }

    /** Visits every testcase of a listing, with `runCount` jobs counted beforehand. */
    method VisitAll(list: seq<string>, runCount: nat, f: Faults, ghost v: View, ghost counted: set<string>,
                    ghost before: set<string>)
      returns (r: Outcome, ghost starts: set<string>, ghost kills: set<string>)
      requires Consistent(v, tcTimeout) && Consistent(V(), tcTimeout)
      requires Midway(v, V(), coresTc, runCount, counted, {}, {}, {})
      requires Lists(list, v.local) && local == v.local
      requires before <= gone && counted !! before
      modifies this`pids, this`gone, this`stillborn, this`cut, this`started, this`collected, this`peak, timers
      ensures Consistent(V(), tcTimeout) && timers.clock >= old(timers.clock) && local == v.local
      ensures old(gone) <= gone <= old(gone) + f.deaths && Stuck(old(pids), old(gone)) <= pids
      ensures r.Done? ==> Passed(v, V(), coresTc, starts, kills) && |pids| <= coresTc
      ensures r.Done? ==> Spared(f, before, starts, kills) && Stuck(v.pids, before) == {}
      ensures Broken(v, V(), coresTc)
      ensures !r.Done? ==> Blamed(r, f, V(), gone) && !r.NoPidFile?
    {
      SeenAll(list, v.local);
      assert v.pids <= v.local && Spared(f, before, {}, {}) && Stuck(pids, gone) <= pids;
      hide Midway, Consistent, Passed, RunningTimers, Lists, Seen, Broken, ActiveJobs, Active, Spared, Blamed, Stuck;
      r, starts, kills := Done, {}, {};
      ghost var done: set<string> := {};
      var count := runCount;
      var i := 0;
      while i < |list|
        invariant 0 <= i <= |list| && r.Done?
        invariant local == v.local && timers.clock >= old(timers.clock)
        invariant done == Seen(list, i)
        invariant Consistent(V(), tcTimeout)
        invariant old(gone) <= gone <= old(gone) + f.deaths && Stuck(old(pids), old(gone)) <= pids
        invariant Midway(v, V(), coresTc, count, counted, starts, kills, done)
        invariant Spared(f, before, starts, kills)
      {
        SeenNext(list, v.local, i);
        ghost var pids1, gone1 := pids, gone;
        r, count, starts, kills := Visit(list[i], count, f, v, counted, starts, kills, done, before);
        StuckStays(old(pids), old(gone), pids1, gone1, pids);
        if !r.Done? {
          return;
        }
        done := done + {list[i]};
        i := i + 1;
      }
      MidwayEnds(v, V(), coresTc, count, counted, starts, kills, tcTimeout);
      MidwayBroken(v, V(), coresTc, count, counted, starts, kills, done);
      NoneStuck(v, V(), coresTc, count, counted, starts, kills, f, before);
    }

    /**
     One scheduler pass over two listings of the local store, one to count and one to act on. `starts` and
     `kills` are the jobs it started, and those it stopped and collected. Whether it is done or raises, the jobs
     whose time is not up fit the slots. A pid file whose process was gone before makes every pass raise, and stays.
     */
    method Pass(countList: seq<string>, list: seq<string>, f: Faults)
      returns (r: Outcome, ghost starts: set<string>, ghost kills: set<string>)
      requires Valid() && Lists(countList, local) && Lists(list, local)
      modifies this`pids, this`gone, this`stillborn, this`cut, this`started, this`collected, this`peak, timers
      ensures Valid() && timers.clock >= old(timers.clock) && local == old(local)
      ensures old(gone) <= gone <= old(gone) + f.deaths
      ensures |pids| <= |old(pids)| + coresTc && (peak <= old(peak) || peak <= |old(pids)| + coresTc)
      ensures r.Done? ==> Passed(old(V()), V(), coresTc, starts, kills) && |pids| <= coresTc
      ensures r.Done? ==> Spared(f, old(gone), starts, kills)
      ensures r.Done? ==> StoppedInTime(old(V()), V(), tcTimeout)
      ensures Stuck(old(pids), old(gone)) != {} ==> !r.Done?
      ensures Stuck(old(pids), old(gone)) <= Stuck(pids, gone)
      ensures !r.Done? ==> Blamed(r, f, V(), gone) && (r.NoPidFile? ==> stillborn == old(stillborn))
    {
      starts, kills := {}, {};
      ghost var v, before := V(), gone;
      hide Consistent, Passed, Midway, RunningTimers, ActiveJobs, Spared;
      var runCount;
      ghost var counted;
      r, runCount, counted := GetRunCount(countList, f);
      if r.Done? {
        MidwayStarts(v, V(), coresTc, runCount, counted, tcTimeout);
        r, starts, kills := VisitAll(list, runCount, f, v, counted, before);
        if r.Done? {
          PassedTimes(v, V(), coresTc, starts, kills, tcTimeout);
        }
      }
    }

    /** What `completed` asks of one testcase. */
    method IsDone(n: string, f: Faults, ghost v: View, ghost done: set<string>) returns (result: bool)
      requires Consistent(V(), tcTimeout) && timers.clock >= v.clock && V() == Tick(v, timers.clock)
      requires Checked(v, V(), done)
      modifies timers, this`gone
      ensures Consistent(V(), tcTimeout) && timers.clock >= old(timers.clock) && V() == Tick(v, timers.clock)
      ensures old(gone) <= gone <= old(gone) + f.deaths
      ensures result ==> Checked(v, V(), done + {n})
      ensures !result ==> n !in v.timers || Active(v, n)
    {
      ghost var w := V();
      var timer, isNew, expired := ReadTimer(n, f);
      result := !(isNew || !expired);
      CheckStep(v, w, V(), n, result, done, tcTimeout);
    }

    /** `completed`: every testcase has a started timer and its time is up. */
    method Completed(list: seq<string>, f: Faults) returns (result: bool)
      requires Consistent(V(), tcTimeout) && Lists(list, local)
      modifies timers, this`gone
      ensures Consistent(V(), tcTimeout)
      ensures timers.clock >= old(timers.clock) && V() == Tick(old(V()), timers.clock)
      ensures old(gone) <= gone <= old(gone) + f.deaths
      ensures AllDone(old(V())) ==> result
      ensures result ==> AllDone(V())
    {
      ghost var v := V();
      ghost var done: set<string> := {};
      SeenAll(list, local);
      hide Lists, Seen, RunningTimers;
      var i := 0;
      while i < |list|
        invariant 0 <= i <= |list|
        invariant timers.clock >= v.clock && V() == Tick(v, timers.clock)
        invariant Consistent(V(), tcTimeout)
        invariant old(gone) <= gone <= old(gone) + f.deaths
        invariant done == Seen(list, i) && Checked(v, V(), done)
      {
        hide Consistent, Checked;
        SeenNext(list, local, i);
        result := IsDone(list[i], f, v, done);
        if !result {
          return;
        }
        done := done + {list[i]};
        i := i + 1;
      }
      CheckEnds(v, V(), tcTimeout);
      result := true;
    }

    /** What `kill_all` does with one testcase. */
    method KillIfExpired(n: string, f: Faults, ghost v: View, ghost done: set<string>) returns (r: Outcome)
      requires Consistent(V(), tcTimeout) && Killing(v, V(), done) && n in v.local
      modifies this`pids, this`gone, this`cut, this`collected, timers
      ensures Consistent(V(), tcTimeout) && timers.clock >= old(timers.clock)
      ensures old(gone) <= gone <= old(gone) + f.deaths && Stuck(old(pids), old(gone)) <= pids
      ensures r.Done? ==> Killing(v, V(), done + {n}) && (old(pids) - pids) !! f.collections
      ensures !r.Done? ==> Blamed(r, f, V(), gone) && stillborn == old(stillborn)
    {
      r := Done;
      ghost var u := V();
      var timer, isNew, expired := ReadTimer(n, f);
      ghost var w := V();
      KillStep(v, u, w, n, done, tcTimeout);
      hide Consistent, Killing, Active, RunningTimers, Terminate, CutOff, Blamed;
      if !isNew {
        if expired {
          r := TerminateTestcase(n, f);
          KillKeeps(w, V(), n, r);
          if !r.Done? {
            BlameOne(r, f, V(), gone, n);
          }
        }
      }
    }

    /** `kill_all`: stops every job whose time is up; raises where `_terminate_testcase` does. */
    method KillAll(list: seq<string>, f: Faults) returns (r: Outcome)
      requires Consistent(V(), tcTimeout) && Lists(list, local)
      modifies this`pids, this`gone, this`cut, this`collected, timers
      ensures Consistent(V(), tcTimeout) && timers.clock >= old(timers.clock)
      ensures old(gone) <= gone <= old(gone) + f.deaths
      ensures r.Done? ==> Killing(old(V()), V(), local) && (old(pids) - pids) !! f.collections
      ensures r.Done? ==> stillborn == old(stillborn) && cut == old(cut)
      ensures r.Done? ==> StoppedInTime(old(V()), V(), tcTimeout)
      ensures r.Done? && AllDone(old(V())) ==> pids == {} && collected == multiset(local - stillborn - cut)
      ensures AllDone(old(V())) && Stuck(old(pids), old(gone)) != {} ==> !r.Done?
      ensures Stuck(old(pids), old(gone)) <= Stuck(pids, gone)
      ensures !r.Done? ==> Blamed(r, f, V(), gone) && stillborn == old(stillborn)
    {
      r := Done;
      ghost var v := V();
      ghost var done: set<string> := {};
      assert Killing(v, V(), done);
      SeenAll(list, local);
      hide Consistent, Killing, RunningTimers, AllDone, Lists, Seen, Blamed;
      var i := 0;
      while i < |list|
        invariant 0 <= i <= |list| && r.Done?
        invariant done == Seen(list, i)
        invariant timers.clock >= v.clock && local == v.local && stillborn == v.stillborn
        invariant old(gone) <= gone <= old(gone) + f.deaths && Stuck(old(pids), old(gone)) <= pids
        invariant (old(pids) - pids) !! f.collections
        invariant Consistent(V(), tcTimeout) && Killing(v, V(), done)
      {
        SeenNext(list, v.local, i);
        r := KillIfExpired(list[i], f, v, done);
        if !r.Done? {
          return;
        }
        KillingKeeps(v, V(), done + {list[i]});
        done := done + {list[i]};
        i := i + 1;
      }
      KillEnds(v, V(), tcTimeout);
      KillTimes(v, V(), tcTimeout);
      hide StoppedInTime;
    }

    // ---------- A whole stage ----------

    /** Nothing has gone wrong yet. */
    ghost predicate Unharmed(f: Faults)
      reads this, timers
    {
      && Valid() && |pids| <= coresTc && stillborn == {} && cut == {}
      && V().timers.Keys !! f.starts && (V().timers.Keys - pids) !! f.collections
    }

    /** A pass over fresh listings when no job's time is left. */
    method PassOverStore(f: Faults, ghost waiting: set<string>) returns (r: Outcome)
      requires Unharmed(f) && (forall n :: !Active(V(), n)) && waiting == Waiting(V())
      modifies this`pids, this`gone, this`stillborn, this`cut, this`started, this`collected, this`peak, timers
      ensures Valid() && local == old(local) && (peak <= old(peak) || peak <= 2 * coresTc)
      ensures old(gone) <= gone <= old(gone) + f.deaths
      ensures r.Done? ==> Unharmed(f) && (Waiting(V()) == {} || |Waiting(V())| + coresTc <= |waiting|)
      ensures !r.Done? ==> Harmed(f, local, pids, gone)
    {
      ghost var v := V();
      var countList := ListLocal();
      var list := ListLocal();
      ghost var starts, kills;
      r, starts, kills := Pass(countList, list, f);
      assert v.timers.Keys <= v.local;
      if r.Done? {
        StillUnharmed(v, V(), coresTc, starts, kills, f, old(gone));
        hide Consistent, RunningTimers, ActiveJobs, Spared;
        PassProgress(v, V(), coresTc, starts, kills);
      } else {
        BlamedHarms(r, f, V(), gone, tcTimeout);
      }
    }

    /** More than `tcTimeout` after the last pass, checks for completion and else makes another pass. */
    method CheckOrPass(f: Faults, ghost waiting: set<string>) returns (completed: bool, r: Outcome)
      requires Unharmed(f) && waiting == Waiting(V())
      modifies this`pids, this`gone, this`stillborn, this`cut, this`started, this`collected, this`peak, timers
      ensures Valid() && local == old(local) && (peak <= old(peak) || peak <= 2 * coresTc)
      ensures old(gone) <= gone <= old(gone) + f.deaths
      ensures r.Done? ==> Unharmed(f)
      ensures completed ==> r.Done? && AllDone(V()) && Waiting(V()) == waiting
      ensures !completed && r.Done? ==> waiting != {} && (Waiting(V()) == {} || |Waiting(V())| + coresTc <= |waiting|)
      ensures !r.Done? ==> Harmed(f, local, pids, gone)
    {
      ghost var v := V();
      r := Done;
      timers.Sleep(tcTimeout);
      SleepExpires(v, timers.clock, tcTimeout);
      TickConsistent(v, timers.clock, tcTimeout);
      TickActives(v, timers.clock, tcTimeout);
      ghost var w := V();
      assert w == Tick(v, timers.clock);
      var list := ListLocal();
      completed := Completed(list, f);
      TickConsistent(w, timers.clock, tcTimeout);
      TickActives(w, timers.clock, tcTimeout);
      if !completed {
        NotDoneWaits(w, tcTimeout);
        hide Consistent, RunningTimers, AllDone, ActiveJobs;
        r := PassOverStore(f, waiting);
      }
    }

    /** The first pass of a stage. */
    method FirstRun(f: Faults) returns (r: Outcome, passes: nat, ghost waiting: nat)
      requires Valid() && V().timers == map[]
      modifies this`pids, this`gone, this`stillborn, this`cut, this`started, this`collected, this`peak, timers
      ensures Valid() && local == old(local) && (peak <= old(peak) || peak <= 2 * coresTc)
      ensures old(gone) <= gone <= old(gone) + f.deaths
      ensures r.Done? ==> Unharmed(f) && waiting == |Waiting(V())| && PassBound(passes, coresTc, waiting, |local|)
      ensures !r.Done? ==> Harmed(f, local, pids, gone)
    {
      assert Waiting(V()) == local;
      assert pids == {} && stillborn == {} && cut == {};
      r := PassOverStore(f, local);
      passes, waiting := 1, |Waiting(V())|;
      if r.Done? {
        FirstPass(coresTc, waiting, |local|);
      }
    }

    /** One more check of a stage, and one more pass if it is not completed. */
    method NextRun(before: nat, f: Faults, ghost waiting: nat)
      returns (completed: bool, r: Outcome, passes: nat, ghost left: nat)
      requires Unharmed(f) && waiting == |Waiting(V())|
      requires PassBound(before, coresTc, waiting, |local|) && coresTc >= 1
      modifies this`pids, this`gone, this`stillborn, this`cut, this`started, this`collected, this`peak, timers
      ensures Valid() && local == old(local) && (peak <= old(peak) || peak <= 2 * coresTc)
      ensures old(gone) <= gone <= old(gone) + f.deaths
      ensures r.Done? ==> Unharmed(f) && left == |Waiting(V())| && PassBound(passes, coresTc, left, |local|)
      ensures completed ==> r.Done? && AllDone(V())
      ensures !completed && r.Done? ==> left < waiting
      ensures !r.Done? ==> Harmed(f, local, pids, gone)
    {
      hide Consistent, RunningTimers, PassBound, Waiting, AllDone, ActiveJobs, Harmed;
      passes, left := before, waiting;
      completed, r := CheckOrPass(f, Waiting(V()));
      if !completed && r.Done? {
        PassCount(before, coresTc, waiting, |Waiting(V())|, |local|);
        passes, left := before + 1, |Waiting(V())|;
      }
    }

    /** Passes until the stage is completed or a pass raises, with more than `tcTimeout` between them. */
    method RunPasses(f: Faults) returns (r: Outcome, passes: nat, ghost left: nat)
      requires Valid() && V().timers == map[] && coresTc >= 1
      modifies this`pids, this`gone, this`stillborn, this`cut, this`started, this`collected, this`peak, timers
      ensures Valid() && local == old(local) && (peak <= old(peak) || peak <= 2 * coresTc)
      ensures old(gone) <= gone <= old(gone) + f.deaths
      ensures r.Done? ==> Unharmed(f) && AllDone(V()) && PassBound(passes, coresTc, left, |local|)
      ensures !r.Done? ==> Harmed(f, local, pids, gone)
    {
      hide Consistent, RunningTimers, PassBound, Waiting, AllDone, ActiveJobs, Harmed;
      ghost var total := local;
      r, passes, left := FirstRun(f);
      var completed := false;
      while !completed && r.Done?
        invariant Valid() && local == total && (peak <= old(peak) || peak <= 2 * coresTc)
        invariant old(gone) <= gone <= old(gone) + f.deaths
        invariant r.Done? ==> Unharmed(f) && left == |Waiting(V())| && PassBound(passes, coresTc, left, |total|)
        invariant completed ==> r.Done? && AllDone(V())
        invariant !r.Done? ==> Harmed(f, local, pids, gone)
        decreases !completed, r.Done?, left
      {
        completed, r, passes, left := NextRun(passes, f, left);
      }
    }

    /**
     A whole stage over a fixed local store, as the driver runs it: a pass at creation, then a pass each time
     the stage is not completed, and at last `terminate`. It gets through exactly if no start and no collection
     of one of its testcases aborts and there is never a pid file whose process is gone when that is looked at,
     and so at the end. So it gets through whenever no process of one of its testcases is gone before or can
     disappear. Then it takes at most ceil(n / coresTc) passes (one if there is no testcase); every
     testcase was started exactly once and collected exactly once, and no live job is left behind.
     */
    method RunStage(f: Faults) returns (r: Outcome, passes: nat)
      requires Valid() && V().timers == map[] && coresTc >= 1
      modifies this`pids, this`gone, this`stillborn, this`cut, this`started, this`collected, this`peak, timers
      ensures local == old(local) && Consistent(V(), tcTimeout) && (peak <= old(peak) || peak <= 2 * coresTc)
      ensures old(gone) <= gone <= old(gone) + f.deaths
      ensures r.Done? <==> local !! f.starts && local !! f.collections && Stuck(pids, gone) == {}
      ensures local !! f.starts && local !! f.collections && local !! old(gone) + f.deaths ==> r.Done?
      ensures r.Done? ==> pids == {} && started == multiset(local) && collected == multiset(local)
      ensures r.Done? ==> passes == 1 || (passes - 1) * coresTc < |local|
    {
      ghost var waiting;
      r, passes, waiting := RunPasses(f);
      if r.Done? {
        hide RunningTimers, ActiveJobs;
        EveryStartLogged(V(), tcTimeout);
        PassesBounded(passes, coresTc, waiting, |local|);
        r := TerminateStage(f);
      }
    }

    /** `terminate` of a completed stage. */
    method TerminateStage(f: Faults) returns (r: Outcome)
      requires Unharmed(f) && AllDone(V())
      modifies this`pids, this`gone, this`cut, this`collected, timers
      ensures local == old(local) && Consistent(V(), tcTimeout) && peak == old(peak)
      ensures old(gone) <= gone <= old(gone) + f.deaths
      ensures r.Done? ==> pids == {} && collected == multiset(local) && local !! f.starts && local !! f.collections
      ensures !r.Done? ==> Harmed(f, local, pids, gone)
    {
      var list := ListLocal();
      r := KillAll(list, f);
      hide StoppedInTime, ActiveJobs, RunningTimers, Active, AllDone, Killing;
      if r.Done? {
        assert local - stillborn - cut == local;
      } else {
        BlamedHarms(r, f, V(), gone, tcTimeout);
      }
    }

    // ---------- Any number of passes ----------

    /**
     Passes one after the other, whatever goes wrong in each. A pid file whose process is gone makes all of them
     raise. The jobs whose time is not up always fit the slots; pid files can exceed twice the slots only in a pass
     that follows one that raised.
     */
    method Passes(fs: seq<Faults>) returns (outcomes: seq<Outcome>)
      requires Valid() && |pids| <= coresTc
      modifies this`pids, this`gone, this`stillborn, this`cut, this`started, this`collected, this`peak, timers
      ensures Valid() && local == old(local) && |outcomes| == |fs|
      ensures peak <= old(peak) || peak <= Behind(outcomes) * coresTc + 2 * coresTc
      ensures Stuck(old(pids), old(gone)) != {} ==> forall i :: 0 <= i < |outcomes| ==> !outcomes[i].Done?
      ensures Stuck(old(pids), old(gone)) <= Stuck(pids, gone)
    {
      hide Consistent, ActiveJobs, RunningTimers, Passed, Spared, Blamed, Lists;
      outcomes := [];
      while |outcomes| < |fs|
        invariant |outcomes| <= |fs| && Valid() && local == old(local)
        invariant |pids| <= Streak(outcomes) * coresTc + coresTc
        invariant peak <= old(peak) || peak <= Behind(outcomes) * coresTc + 2 * coresTc
        invariant Stuck(old(pids), old(gone)) != {} ==> forall i :: 0 <= i < |outcomes| ==> !outcomes[i].Done?
        invariant Stuck(old(pids), old(gone)) <= Stuck(pids, gone)
        decreases |fs| - |outcomes|
      {
        var countList := ListLocal();
        var list := ListLocal();
        var r, starts, kills := Pass(countList, list, fs[|outcomes|]);
        BehindNext(outcomes, r, coresTc);
        outcomes := outcomes + [r];
      }
    }
  }

  /** Something went wrong that the stage cannot get past. */
  ghost predicate Harmed(f: Faults, local: set<string>, pids: set<string>, gone: set<string>) {
    !(local !! f.starts) || !(local !! f.collections) || Stuck(pids, gone) != {}
  }

  lemma BlamedHarms(r: Outcome, f: Faults, w: View, gone: set<string>, timeout: nat)
    requires Consistent(w, timeout) && Blamed(r, f, w, gone) && (r.NoPidFile? ==> w.stillborn == {})
    ensures Harmed(f, w.local, w.pids, gone)
  {
    match r
    case StartFailed =>
      var n :| n in w.stillborn * f.starts;
      assert n in w.local * f.starts;
    case CollectionFailed =>
      var n :| n in w.cut * f.collections;
      assert n in w.local * f.collections;
    case Gone =>
  }

  /** A pass that is done started and stopped nothing that goes wrong. */
  lemma StillUnharmed(
    v: View, w: View, slots: nat, starts: set<string>, kills: set<string>, f: Faults, gone: set<string>)
    requires Passed(v, w, slots, starts, kills) && Spared(f, gone, starts, kills)
    requires v.timers.Keys !! f.starts && (v.timers.Keys - v.pids) !! f.collections
    ensures w.timers.Keys !! f.starts && (w.timers.Keys - w.pids) !! f.collections
  {
    assert w.timers.Keys - w.pids <= (v.timers.Keys - v.pids) + kills;
  }

  /** How many passes in a row have raised up to the end. */
  function Streak(outcomes: seq<Outcome>): nat {
    if outcomes == [] || outcomes[|outcomes| - 1].Done? then 0 else Streak(outcomes[..|outcomes| - 1]) + 1
  }

  /** The most passes in a row that raised before some pass. */
  function Behind(outcomes: seq<Outcome>): nat {
    if outcomes == [] then 0
    else
      var before := outcomes[..|outcomes| - 1];
      if Behind(before) >= Streak(before) then Behind(before) else Streak(before)
  }

  lemma BehindNext(outcomes: seq<Outcome>, r: Outcome, slots: nat)
    ensures var next := outcomes + [r];
            && Streak(next) == (if r.Done? then 0 else Streak(outcomes) + 1)
            && Streak(next) * slots == (if r.Done? then 0 else Streak(outcomes) * slots + slots)
            && Streak(outcomes) * slots <= Behind(next) * slots && Behind(outcomes) * slots <= Behind(next) * slots
  {
    var next := outcomes + [r];
    assert next[..|outcomes|] == outcomes;
    TimesMonotone(Streak(outcomes), Behind(next), slots);
    TimesMonotone(Behind(outcomes), Behind(next), slots);
  }

  lemma TimesMonotone(a: nat, b: nat, c: nat)
    requires a <= b
    ensures a * c <= b * c
  {
  }

  const NO_FAULTS := Faults({}, {}, {})

  /**
   One slot, and one job whose process is gone. Two passes that raise at it each start another job before: three
   pid files, more than twice the slots.
   */
  method OverTwiceTheSlots(a: string, b: string, c: string) returns (s: Stage2)
    requires a != b && b != c && a != c
    ensures fresh(s) && s.Valid() && s.coresTc == 1 && |s.pids| == 3
  {
    hide Consistent, ActiveJobs, RunningTimers, Active, Stuck;
    s := OneDeadJob(a, {a, b, c});
    StuckOne(s.pids, s.gone, a);
    var r := StartOneMore(s, b, a);
    StuckOne(s.pids, s.gone, a);
    r := StartOneMore(s, c, a);
    ThreeOf(a, b, c);
    assert s.pids == {a, b, c};
  }

  /** Nothing goes wrong: a stage over any testcases is completed within the bound, everything started and collected. */
  method CalmStage(coresTc: nat, tcTimeout: nat, names: set<string>) returns (s: Stage2, passes: nat)
    requires coresTc >= 1
    ensures fresh(s) && s.local == names && s.pids == {} && s.gone == {}
    ensures s.started == multiset(names) && s.collected == multiset(names)
    ensures passes == 1 || (passes - 1) * coresTc < |names|
  {
    s := new Stage2(coresTc, tcTimeout, 1);
    s.UpdateLocal(names);
    var r;
    r, passes := s.RunStage(NO_FAULTS);
  }

  /** A stage with one slot, whose only job so far has died. */
  method OneDeadJob(a: string, names: set<string>) returns (s: Stage2)
    requires a in names
    ensures fresh(s) && fresh(s.timers) && s.Valid() && s.coresTc == 1 && s.local == names
    ensures s.pids == {a} && s.gone == {a} && s.V().timers.Keys == {a}
  {
    hide Consistent, ActiveJobs, RunningTimers, Active, Stuck;
    s := new Stage2(1, 0, 1);
    s.UpdateLocal(names);
    StartOnly(s, a);
    s.Die(a);
    assert {} + {a} == {a} && {} + names == names;
  }

  /**
   A stage whose job has died: every pass there will ever be raises, whatever else happens, and the pid file
   stays.
   */
  method DeadJobBlocks(a: string, names: set<string>, fs: seq<Faults>) returns (s: Stage2, outcomes: seq<Outcome>)
    requires a in names
    ensures fresh(s) && s.local == names && a in s.pids && a in s.gone
    ensures |outcomes| == |fs| && forall i :: 0 <= i < |outcomes| ==> !outcomes[i].Done?
  {
    s := OneDeadJob(a, names);
    assert a in Stuck(s.pids, s.gone);
    outcomes := s.Passes(fs);
    assert a in Stuck(s.pids, s.gone);
  }

  lemma StuckOne(pids: set<string>, gone: set<string>, n: string)
    ensures n in pids && n in gone ==> n in Stuck(pids, gone)
  {
  }

  lemma ThreeOf(a: string, b: string, c: string)
    requires a != b && b != c && a != c
    ensures |{a, b, c}| == 3
  {
  }

  /** When all jobs' times are up, the count finds none. */
  method CountNone(s: Stage2) returns (count: nat)
    requires s.Valid() && s.coresTc >= 1
    modifies s`gone, s.timers
    ensures Consistent(s.V(), s.tcTimeout) && s.V() == Tick(old(s.V()), s.timers.clock) && s.gone == old(s.gone)
    ensures s.timers.clock >= old(s.timers.clock) && forall n :: !Active(s.V(), n)
    ensures count == 0 && Midway(s.V(), s.V(), s.coresTc, 0, {}, {}, {}, {})
  {
    hide Consistent, RunningTimers, Midway, Lists, Active, ActiveJobs;
    ghost var u := s.V();
    AfterSleep(s);
    ghost var v := s.V();
    var list := s.ListLocal();
    var r;
    ghost var counted;
    r, count, counted := s.GetRunCount(list, NO_FAULTS);
    assert counted == {};
    TickConsistent(v, s.timers.clock, s.tcTimeout);
    NoneActive(s.V());
    MidwayStarts(s.V(), s.V(), s.coresTc, count, counted, s.tcTimeout);
  }

  /** More than the timeout passes. */
  method AfterSleep(s: Stage2)
    requires Consistent(s.V(), s.tcTimeout)
    modifies s.timers
    ensures s.timers.clock >= old(s.timers.clock) && s.V() == Tick(old(s.V()), s.timers.clock)
    ensures Consistent(s.V(), s.tcTimeout) && forall n :: !Active(s.V(), n)
  {
    hide Consistent, RunningTimers, Active;
    ghost var u := s.V();
    s.timers.Sleep(s.tcTimeout);
    SleepExpires(u, s.timers.clock, s.tcTimeout);
    TickConsistent(u, s.timers.clock, s.tcTimeout);
  }

  lemma NoneActive(v: View)
    requires forall n :: !Active(v, n)
    ensures ActiveJobs(v) == {}
  {
  }

  /** A pass, once all jobs' times are up, up to its first testcase, which is new. */
  method BeginPass(s: Stage2, n: string)
    returns (count: nat, ghost v: View, ghost starts: set<string>, ghost kills: set<string>)
    requires s.Valid() && s.coresTc == 1 && n in s.local && n !in s.V().timers
    modifies s`pids, s`gone, s`stillborn, s`cut, s`started, s`collected, s`peak, s.timers
    ensures Consistent(v, s.tcTimeout) && Consistent(s.V(), s.tcTimeout) && s.local == old(s.local) == v.local
    ensures Midway(v, s.V(), 1, count, {}, starts, kills, {n}) && Spared(NO_FAULTS, s.gone, starts, kills)
    ensures s.pids == old(s.pids) + {n} && s.gone == old(s.gone)
    ensures s.V().timers.Keys == old(s.V()).timers.Keys + {n}
  {
    hide Consistent, RunningTimers, Midway, Lists, ActiveJobs, Active, Broken, Blamed, Spared, Stuck;
    count := CountNone(s);
    v := s.V();
    SparedNone();
    var r;
    r, count, starts, kills := s.Visit(n, count, NO_FAULTS, v, {}, {}, {}, {}, s.gone);
    assert s.gone == old(s.gone);
    assert {} + {n} == {n};
  }

  /** A pass, once all jobs' times are up, that first visits a new testcase and then, if there is one, a stuck one. */
  method StartOneMore(s: Stage2, n: string, stuck: string) returns (r: Outcome)
    requires s.Valid() && s.coresTc == 1 && n in s.local && n !in s.V().timers && stuck in s.local
    requires stuck == n || stuck in Stuck(s.pids, s.gone)
    modifies s`pids, s`gone, s`stillborn, s`cut, s`started, s`collected, s`peak, s.timers
    ensures s.Valid() && s.local == old(s.local) && s.pids == old(s.pids) + {n} && s.gone == old(s.gone)
    ensures r == if stuck == n then Done else Gone
    ensures s.V().timers.Keys == old(s.V()).timers.Keys + {n}
  {
    if stuck == n {
      StartOnly(s, n);
      return Done;
    } else {
      assert stuck in s.pids && stuck in s.gone;
      hide Consistent, RunningTimers, Midway, ActiveJobs, Active, Broken, Spared, Stuck;
      var count;
      ghost var v, starts, kills;
      count, v, starts, kills := BeginPass(s, n);
      StuckOne(s.pids, s.gone, stuck);
      RaiseAt(s, stuck, count, v, starts, kills, n);
      return Gone;
    }
  }

  method StartOnly(s: Stage2, n: string)
    requires s.Valid() && s.coresTc == 1 && n in s.local && n !in s.V().timers
    modifies s`pids, s`gone, s`stillborn, s`cut, s`started, s`collected, s`peak, s.timers
    ensures s.Valid() && s.local == old(s.local) && s.pids == old(s.pids) + {n} && s.gone == old(s.gone)
    ensures s.V().timers.Keys == old(s.V()).timers.Keys + {n}
  {
    hide Consistent, RunningTimers, Midway, ActiveJobs, Active, Broken, Spared, Stuck;
    var count;
    ghost var v, starts, kills;
    count, v, starts, kills := BeginPass(s, n);
    MidwayBroken(v, s.V(), 1, count, {}, starts, kills, {n});
    BrokenFits(v, s.V(), 1);
  }

  /** The pass goes on to a job whose process is gone. */
  method RaiseAt(s: Stage2, stuck: string, count: nat, ghost v: View, ghost starts: set<string>,
                 ghost kills: set<string>, ghost n: string)
    requires Consistent(v, s.tcTimeout) && Consistent(s.V(), s.tcTimeout) && s.local == v.local && s.coresTc == 1
    requires Midway(v, s.V(), 1, count, {}, starts, kills, {n}) && Spared(NO_FAULTS, s.gone, starts, kills)
    requires stuck in s.local && stuck != n && stuck in Stuck(s.pids, s.gone)
    modifies s`pids, s`gone, s`stillborn, s`cut, s`started, s`collected, s`peak, s.timers
    ensures s.Valid() && s.local == old(s.local) && s.pids == old(s.pids) && s.gone == old(s.gone)
    ensures s.V().timers == old(s.V()).timers
  {
    hide Consistent, RunningTimers, Midway, ActiveJobs, Active, Broken, Blamed, Spared, Stuck;
    StuckIsNotActive(v, s.V(), count, starts, kills, n, stuck);
    var r, c;
    ghost var x, y;
    r, c, x, y := s.Visit(stuck, count, NO_FAULTS, v, {}, starts, kills, {n}, s.gone);
    BrokenFits(v, s.V(), 1);
    assert s.gone == old(s.gone);
  }

  lemma SparedNone()
    ensures forall gone :: Spared(NO_FAULTS, gone, {}, {})
  {
  }

  lemma BrokenFits(v: View, w: View, slots: nat)
    requires Broken(v, w, slots)
    ensures |ActiveJobs(w)| <= slots
  {
  }

  lemma StuckIsNotActive(
    v: View, w: View, count: nat, starts: set<string>, kills: set<string>, n: string, stuck: string)
    requires Midway(v, w, 1, count, {}, starts, kills, {n}) && stuck != n
    ensures !Active(w, stuck)
  {
  }
}
