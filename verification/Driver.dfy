/**
 The driver: from one look at the output directory to the next, a run stays at its stage and iteration or
 goes on to the next one. Source: src/pmfuzz/core/pmfuzz.py. What happens inside the stages' directories
 is given from outside: whether a stage is complete, and whether a step aborts.
 */
module Driver {
  import opened StageDirs
  import opened StageState
  import opened PTimers

  type Pair = (nat, nat)

  // ---------- Layouts ----------

  /** How far a run got: no stage, stage 1, or an iteration of stage 2. */
  datatype Layout = Fresh | One | Two(iter: nat) {
    ghost predicate Valid() {
      Two? ==> iter >= 1
    }

    function Pair(): Pair {
      match this
      case Fresh => (0, 0)
      case One => (1, 1)
      case Two(k) => (2, k)
    }

    function Dirs(): set<string> {
      match this
      case Fresh => {}
      case One => {OutdirName(1, 1)}
      case Two(k) => {OutdirName(1, 1), OutdirName(2, k)}
    }
  }

  /** The stage directories are those of the layout: stage 2 has at most one. Past stage 1 the global store exists. */
  ghost predicate LaidOut(names: set<string>, l: Layout) {
    && l.Valid() && "" !in names
    && (forall d :: d in names && !Special(d) <==> d in l.Dirs())
    && (l.Two? ==> "@dedup" in names)
  }

  lemma NotSpecial(stage: nat, iter: nat)
    ensures OutdirName(stage, iter) != "" && !Special(OutdirName(stage, iter))
  {
    assert OutdirName(stage, iter)[0] == 's';
  }

  /** What `sync` reports of a layout. */
  lemma LatestOf(names: set<string>, l: Layout, p: Pair)
    requires LaidOut(names, l)
    ensures Readable(names)
    ensures IsLatest(Pairs(names), p) <==> p == l.Pair()
  {
    hide StageInf, OutdirName, Special;
    StageInfOfName(1, 1);
    NotSpecial(1, 1);
    if l.Two? {
      StageInfOfName(2, l.iter);
      NotSpecial(2, l.iter);
    }
    assert forall d :: d in l.Dirs() ==> d in names;
    match l
    case Fresh => assert Pairs(names) == {};
    case One =>
      assert OutdirName(1, 1) in names;
      assert Pairs(names) == {(1, 1)};
    case Two(k) =>
      assert OutdirName(1, 1) in names && OutdirName(2, k) in names;
      assert Pairs(names) == {(1, 1), (2, k)};
  }

  /** A special directory changes no layout. */
  lemma WithSpecial(names: set<string>, l: Layout, d: string)
    requires LaidOut(names, l) && Special(d)
    ensures LaidOut(names + {d}, l)
  {
    assert forall e :: e in names + {d} && !Special(e) <==> e in names && !Special(e);
  }

  lemma DirsNotSpecial(l: Layout)
    ensures forall d :: d in l.Dirs() ==> d != "" && !Special(d)
  {
    hide OutdirName;
    NotSpecial(1, 1);
    if l.Two? {
      NotSpecial(2, l.iter);
    }
  }

  /** Creating the directory a layout has anyway, or the first one of the next stage. */
  lemma WithDir(names: set<string>, l: Layout, m: Layout, d: string)
    requires LaidOut(names, l) && m.Valid() && m.Dirs() == l.Dirs() + {d} && (m.Two? ==> "@dedup" in names)
    ensures LaidOut(names + {d}, m)
  {
    DirsNotSpecial(m);
    hide OutdirName;
    assert d in m.Dirs();
  }

  lemma DistinctDirs(j: nat, k: nat)
    ensures OutdirName(1, 1) != OutdirName(2, k)
    ensures j != k ==> OutdirName(2, j) != OutdirName(2, k)
  {
    hide OutdirName;
    if OutdirName(1, 1) == OutdirName(2, k) {
      OutdirNameInjective(1, 1, 2, k);
    }
    if OutdirName(2, j) == OutdirName(2, k) {
      OutdirNameInjective(2, j, 2, k);
    }
  }

  /** Between `clear` and the creation of the next iteration's directory the output looks like stage 1's. */
  lemma Cleared(names: set<string>, k: nat)
    requires LaidOut(names, Two(k))
    ensures LaidOut(names - {OutdirName(2, k)}, One)
  {
    DistinctDirs(k, k);
    NotSpecial(2, k);
  }

  // ---------- Histories ----------

  /** From one look at the directory to the next. */
  predicate Follows(p: Pair, q: Pair) {
    q == p || (p == (0, 0) && q == (1, 1)) || (p == (1, 1) && q == (2, 1)) || (p.0 == 2 && q == (2, p.1 + 1))
  }

  ghost predicate Chain(trace: seq<Pair>) {
    forall i :: 0 <= i < |trace| - 1 ==> Follows(trace[i], trace[i + 1])
  }

  /** The position of a pair on the only path: (0, 0), (1, 1), (2, 1), (2, 2), ... */
  function Rank(p: Pair): nat {
    if p == (0, 0) then 0 else if p == (1, 1) then 1 else p.1 + 1
  }

  predicate OnPath(p: Pair) {
    p == (0, 0) || p == (1, 1) || (p.0 == 2 && p.1 >= 1)
  }

  lemma RankInjective(p: Pair, q: Pair)
    requires OnPath(p) && OnPath(q) && Rank(p) == Rank(q)
    ensures p == q
  {
  }

  /** No iteration is skipped or repeated: whatever lies between two pairs seen was seen in between. */
  lemma {:induction false} NothingSkipped(trace: seq<Pair>, q: Pair) returns (i: nat)
    requires trace != [] && Chain(trace) && OnPath(trace[0]) && OnPath(q)
    requires Rank(trace[0]) <= Rank(q) <= Rank(trace[|trace| - 1])
    ensures i < |trace| && trace[i] == q
    ensures forall j :: 0 <= j < i ==> Rank(trace[j]) < Rank(q)
    ensures forall j :: i <= j < |trace| ==> Rank(trace[j]) >= Rank(q)
  {
    var last := |trace| - 1;
    ChainOnPath(trace, last);
    if last == 0 {
      RankInjective(trace[0], q);
      i := 0;
    } else {
      var rest := trace[..last];
      ChainOnPath(trace, last - 1);
      assert Follows(trace[last - 1], trace[last]);
      assert forall j :: 0 <= j < last ==> rest[j] == trace[j];
      if Rank(q) <= Rank(trace[last - 1]) {
        i := NothingSkipped(rest, q);
      } else {
        RankInjective(trace[last], q);
        i := last;
        forall j | 0 <= j < last
          ensures Rank(trace[j]) < Rank(q)
        {
          RankMonotone(trace, j, last - 1);
        }
      }
    }
  }

  lemma {:induction false} ChainOnPath(trace: seq<Pair>, i: nat)
    requires i < |trace| && Chain(trace) && OnPath(trace[0])
    ensures OnPath(trace[i])
  {
    if i > 0 {
      ChainOnPath(trace, i - 1);
      assert Follows(trace[i - 1], trace[i]);
    }
  }

  lemma {:induction false} RankMonotone(trace: seq<Pair>, i: nat, j: nat)
    requires i <= j < |trace| && Chain(trace) && OnPath(trace[0])
    ensures Rank(trace[i]) <= Rank(trace[j])
    decreases j
  {
    if i < j {
      RankMonotone(trace, i, j - 1);
      ChainOnPath(trace, j - 1);
      assert Follows(trace[j - 1], trace[j]);
    }
  }

  // ---------- The driver ----------

  /** How an iteration of the loop, or the whole loop, ended. */
  datatype Outcome = Going | Aborted | StoppedInGap

  /**
   What one turn of the loop meets: whether `collect_stage1` aborts, whether stage 2 is complete, whether a
   step aborts before it makes a new stage directory or has cleared an old one, whether the driver stops
   between `clear` and the next directory, and whether the stage of a new directory aborts in its first pass.
   */
  datatype World = World(collectFails: bool, completed: bool, fails: bool, stops: bool, newFails: bool)

  /** The first pass over a new stage directory may abort; `update_local` can stop there. */
  function Entering(w: World): Outcome {
    if w.newFails then Aborted else Going
  }

  /** What `run_stage2` comes to. */
  function AfterStage2(l: Layout, w: World): (Outcome, Layout)
    requires !l.Fresh?
  {
    match l
    case One => if w.fails then (Aborted, One) else (Entering(w), Two(1))
    case Two(k) =>
      if w.fails then (Aborted, l)
      else if !w.completed then (Going, l)
      else if w.stops then (StoppedInGap, One)
      else (Entering(w), Two(k + 1))
  }

  /** What one turn comes to, if stage 1's time is up or not. */
  function AfterTurn(l: Layout, w: World, expired: bool, disableStage2: bool): (Outcome, Layout) {
    if l.Fresh? then if w.fails then (Aborted, Fresh) else (Entering(w), One)
    else if w.collectFails then (Aborted, l)
    else if disableStage2 || (l.One? && !expired) then (Going, l)
    else AfterStage2(l, w)
  }

  /** A turn stays or takes the next step, unless it is stopped in the gap, which sends stage 2 back to stage 1. */
  lemma TurnFollows(l: Layout, w: World, expired: bool, disableStage2: bool)
    ensures var (outcome, next) := AfterTurn(l, w, expired, disableStage2);
            if outcome.StoppedInGap? then l.Two? && next == One else Follows(l.Pair(), next.Pair())
  {
  }

  predicate FaultIn(w: World) {
    w.collectFails || w.fails || w.newFails
  }

  /**
   From one look at the directory to the next, in a turn that is not stopped in the gap: (2, k) moves on exactly in
   a turn that finds its stage completed and meets no fault before it moves.
   */
  predicate Moves(p: Pair, q: Pair, w: World, disableStage2: bool) {
    if p.0 == 0 then q == if w.fails then p else (1, 1)
    else if w.collectFails || disableStage2 then q == p
    else if p.0 == 1 then q == p || (q == (2, 1) && !w.fails)
    else q == if w.completed && !w.fails then (2, p.1 + 1) else p
  }

  /** Turn after turn, each in its own world. */
  ghost predicate Marches(trace: seq<Pair>, worlds: seq<World>, disableStage2: bool) {
    |trace| <= |worlds| + 1
    && forall i :: 0 <= i < |trace| - 1 ==> Moves(trace[i], trace[i + 1], worlds[i], disableStage2)
  }

  lemma MarchesSnoc(trace: seq<Pair>, p: Pair, q: Pair, worlds: seq<World>, disableStage2: bool)
    requires Marches(trace + [p], worlds, disableStage2) && |trace| < |worlds|
    ensures Moves(p, q, worlds[|trace|], disableStage2) ==> Marches(trace + [p] + [q], worlds, disableStage2)
  {
    var t, u := trace + [p], trace + [p] + [q];
    forall i | 0 <= i < |u| - 1 && Moves(p, q, worlds[|trace|], disableStage2)
      ensures Moves(u[i], u[i + 1], worlds[i], disableStage2)
    {
      if i < |trace| {
        assert Moves(t[i], t[i + 1], worlds[i], disableStage2);
      }
    }
  }

  /** How many of the turns from `i` to `j` found their stage completed and met no fault. */
  function CompletedIn(worlds: seq<World>, i: nat, j: nat): nat
    requires i <= j <= |worlds|
  {
    if i == j then 0
    else
      var w := worlds[j - 1];
      CompletedIn(worlds, i, j - 1) + if w.completed && !w.fails && !w.collectFails then 1 else 0
  }

  /** In stage 2 the iteration counts the turns that found it completed. */
  lemma {:induction false} IterationsCounted(trace: seq<Pair>, worlds: seq<World>, i: nat, j: nat)
    requires Marches(trace, worlds, false) && i <= j < |trace| && trace[i].0 == 2
    ensures trace[j] == (2, trace[i].1 + CompletedIn(worlds, i, j))
    decreases j
  {
    if i < j {
      IterationsCounted(trace, worlds, i, j - 1);
      assert Moves(trace[j - 1], trace[j], worlds[j - 1], false);
    }
  }

  const STAGE1_WAITTIME := 5

  class PmFuzz {
    const outdir: OutDir
    const timers: TimerDir
    const disableStage2: bool

    constructor (outdir: OutDir, timers: TimerDir, disableStage2: bool)
      ensures this.outdir == outdir && this.timers == timers && this.disableStage2 == disableStage2
    {
      this.outdir, this.timers, this.disableStage2 := outdir, timers, disableStage2;
    }

    ghost function Timer1(): Timer
      reads timers
    {
      timers.Get(OutdirName(1, 1))
    }

    /** `run_stage1`, and its timer, which runs from now. */
    method RunStage1(w: World) returns (outcome: Outcome, ghost next: Layout)
      requires LaidOut(outdir.names, Fresh) && outdir.Valid()
      modifies outdir, timers
      ensures LaidOut(outdir.names, next) && outdir.Valid()
      ensures (outcome, next) == if w.fails then (Aborted, Fresh) else (Entering(w), One)
      ensures timers.clock >= old(timers.clock)
      ensures outcome.Going? ==> Timer1() == Timer(timers.clock, 5)
    {
      hide OutdirName, LaidOut;
      NotSpecial(1, 1);
      if w.fails {
        return Aborted, Fresh;
      }
      WithDir(outdir.names, Fresh, One, OutdirName(1, 1));
      outdir.MakeDirs(OutdirName(1, 1));
      if w.newFails {
        return Aborted, One;
      }
      var ptimer := new PTimer(timers, OutdirName(1, 1));
      ptimer.StartNew(STAGE1_WAITTIME);
      return Going, One;
    }

    /** `collect_stage1`: the directories it makes sure of. */
    method CollectStage1(w: World, ghost l: Layout) returns (outcome: Outcome)
      requires LaidOut(outdir.names, l) && !l.Fresh? && outdir.Valid()
      modifies outdir
      ensures LaidOut(outdir.names, l) && outdir.Valid() && "@dedup" in outdir.names
      ensures outcome == if w.collectFails then Aborted else Going
    {
      hide OutdirName, LaidOut;
      NotSpecial(1, 1);
      assert l.Dirs() + {OutdirName(1, 1)} == l.Dirs();
      GlobalStore(outdir.names, l);
      WithDir(outdir.names, l, l, OutdirName(1, 1));
      outdir.MakeDirs(OutdirName(1, 1));
      WithSpecial(outdir.names, l, "@dedup");
      outdir.MakeDirs("@dedup");
      WithSpecial(outdir.names, l, "@temp");
      outdir.MakeDirs("@temp");
      return if w.collectFails then Aborted else Going;
    }

    lemma GlobalStore(names: set<string>, l: Layout)
      requires LaidOut(names, l)
      ensures l.Valid() && (l.Two? ==> "@dedup" in names)
    {
    }

    /** A `Stage2` object makes its directory and those of the stores. */
    method MakeStage2(iter: nat, ghost l: Layout)
      requires iter >= 1 && LaidOut(outdir.names, l) && outdir.Valid() && (l.One? || l == Two(iter))
      modifies outdir
      ensures LaidOut(outdir.names, Two(iter)) && outdir.Valid()
    {
      hide OutdirName, LaidOut;
      NotSpecial(2, iter);
      WithSpecial(outdir.names, l, "@dedup");
      outdir.MakeDirs("@dedup");
      assert Two(iter).Dirs() == l.Dirs() + {OutdirName(2, iter)};
      WithDir(outdir.names, l, Two(iter), OutdirName(2, iter));
      outdir.MakeDirs(OutdirName(2, iter));
    }

    /**
     `run_stage2`: it goes on to the next iteration only when the current one is completed. An abort leaves
     the iteration as it was, or comes in the first pass of the next one; only a stop after `clear`, before
     the next directory is there, loses it.
     */
    method RunStage2(w: World, ghost l: Layout) returns (outcome: Outcome, ghost next: Layout)
      requires LaidOut(outdir.names, l) && !l.Fresh? && outdir.Valid()
      modifies outdir
      ensures LaidOut(outdir.names, next) && outdir.Valid()
      ensures (outcome, next) == AfterStage2(l, w)
      ensures next != l ==> !w.fails && (l.One? || w.completed)
      ensures w.fails || (l.Two? && !w.completed) ==> next == l && outcome == if w.fails then Aborted else Going
      ensures l.One? && !w.fails ==> next == Two(1)
      ensures l.Two? && !w.fails && w.completed ==> next == if w.stops then One else Two(l.iter + 1)
      ensures outcome.StoppedInGap? <==> l.Two? && !w.fails && w.completed && w.stops
      ensures next.Two? && next != l ==> outcome == if w.newFails then Aborted else Going
    {
      hide OutdirName, LaidOut, IsLatest, StageInf;
      var state := new State(outdir);
      LatestOf(outdir.names, l, l.Pair());
      var ok := state.Sync();
      LatestOf(outdir.names, l, (state.stage, state.iterId));
      if state.stage == 1 {
        if w.fails {
          return Aborted, l;
        }
        MakeStage2(1, l);
        return if w.newFails then Aborted else Going, Two(1);
      }
      var stage, iterId := state.stage, state.iterId;
      GlobalStore(outdir.names, l);
      MakeStage2(iterId, l);
      next := l;
      if w.fails {
        return Aborted, next;
      }
      if !w.completed {
        return Going, next;
      }
      Cleared(outdir.names, iterId);
      outdir.RmTree(OutdirName(stage, iterId));
      next := One;
      if w.stops {
        return StoppedInGap, next;
      }
      MakeStage2(iterId + 1, One);
      next := Two(iterId + 1);
      outcome := if w.newFails then Aborted else Going;
    }

    /** One turn of the endless loop, and what it saw of the directory at its head. */
    method Turn(state: State, w: World, ghost l: Layout)
      returns (outcome: Outcome, seen: Pair, ghost next: Layout, ghost expired: bool)
      requires state.outdir == outdir && LaidOut(outdir.names, l) && outdir.Valid()
      modifies outdir, state, timers
      ensures LaidOut(outdir.names, next) && outdir.Valid() && seen == l.Pair()
      ensures (outcome, next) == AfterTurn(l, w, expired, disableStage2)
      ensures timers.clock >= old(timers.clock)
      ensures l.One? && outcome.Going? && !disableStage2 ==> (expired <==> old(Timer1()).ExpiredAt(timers.clock))
      ensures l.One? && next.Two? ==> timers.clock - old(Timer1().start) > old(Timer1().length)
      ensures l.One? && next.One? && outcome.Going? && !disableStage2 ==>
                timers.clock - old(Timer1().start) <= old(Timer1().length)
      ensures !l.Fresh? && (w.collectFails || disableStage2) ==>
                next == l && outcome == if w.collectFails then Aborted else Going
      ensures l.Fresh? ==> next == if w.fails then Fresh else One
      ensures l.Two? && next != l ==> w.completed && !w.fails && !w.collectFails && !disableStage2
      ensures l.Two? && w.completed && !w.fails && !w.collectFails && !w.stops && !disableStage2 ==>
                next == Two(l.iter + 1)
      ensures outcome.Aborted? ==> w.collectFails || w.fails || w.newFails
      ensures l.Fresh? && outcome.Going? ==> Timer1() == Timer(timers.clock, 5)
      ensures !l.Fresh? ==> Timer1() == old(Timer1())
    {
      hide OutdirName, LaidOut, IsLatest, StageInf;
      LatestOf(outdir.names, l, l.Pair());
      var ok := state.Sync();
      LatestOf(outdir.names, l, (state.stage, state.iterId));
      seen := (state.stage, state.iterId);
      next, expired := l, false;
      outcome := Going;
      if seen.0 != 0 {
        outcome := CollectStage1(w, l);
        if outcome.Aborted? {
          return;
        }
      }
      if seen.0 == 0 {
        outcome, next := RunStage1(w);
      } else if seen.0 == 1 && !disableStage2 {
        var timer := new PTimer(timers, OutdirName(1, 1));
        var up := timer.Expired();
        expired := up;
        if up {
          outcome, next := RunStage2(w, l);
        }
      } else if seen.0 == 2 && !disableStage2 {
        outcome, next := RunStage2(w, l);
      } else if !disableStage2 {
        assert false;
      }
    }

    /**
     `run_pmfuzz`, for any number of turns of its loop, each meeting its own world. `trace` is what the loop saw
     at its head. The abort for a missing global store cannot happen.
     */
    method RunPmfuzz(worlds: seq<World>, resume: bool, ghost l: Layout)
      returns (outcome: Outcome, trace: seq<Pair>, ghost next: Layout)
      requires LaidOut(outdir.names, l) && outdir.Valid()
      modifies outdir, timers
      ensures LaidOut(outdir.names, next) && outdir.Valid()
      ensures Chain(trace) && (trace != [] ==> trace[0] == l.Pair())
      ensures !outcome.StoppedInGap? ==> Chain(trace + [next.Pair()]) && (trace == [] ==> next == l)
      ensures outcome.StoppedInGap? ==> next == One && trace != [] && trace[|trace| - 1].0 == 2
      ensures outcome.StoppedInGap? ==> exists i :: 0 <= i < |worlds| && worlds[i].stops
      ensures !resume && l.Two? ==> outcome.Aborted? && trace == []
      ensures |trace| <= |worlds| && (outcome.Going? ==> |trace| == |worlds|)
      ensures outcome.Aborted? && trace != [] ==>
                var w := worlds[|trace| - 1]; w.collectFails || w.fails || w.newFails
      ensures Marches(trace, worlds, disableStage2)
      ensures !outcome.StoppedInGap? ==> Marches(trace + [next.Pair()], worlds, disableStage2)
    {
      hide OutdirName, LaidOut, IsLatest, StageInf;
      trace, next := [], l;
      var info := "@info";
      WithSpecial(outdir.names, l, info);
      outdir.MakeDirs(info);
      var state := new State(outdir);
      LatestOf(outdir.names, l, l.Pair());
      var ok := state.Sync();
      LatestOf(outdir.names, l, (state.stage, state.iterId));
      GlobalStore(outdir.names, l);
      if state.stage > 1 && !state.dedupExists {
        assert false;
      }
      if state.stage != 1 && state.stage != 0 && !resume {
        return Aborted, trace, next;
      }
      outcome := Going;
      var i := 0;
      while i < |worlds| && outcome.Going?
        invariant 0 <= i <= |worlds| && (outcome.StoppedInGap? ==> i > 0 && worlds[i - 1].stops)
        invariant state.outdir == outdir && fresh(state) && LaidOut(outdir.names, next) && outdir.Valid()
        invariant |trace| == i && Marches(trace, worlds, disableStage2)
        invariant !outcome.StoppedInGap? ==> Marches(trace + [next.Pair()], worlds, disableStage2)
        invariant outcome.Aborted? ==> i > 0 && FaultIn(worlds[i - 1])
        invariant Chain(trace) && (trace != [] ==> trace[0] == l.Pair())
        invariant !outcome.StoppedInGap? ==> Chain(trace + [next.Pair()]) && (trace == [] ==> next == l)
        invariant outcome.StoppedInGap? ==> next == One && trace != [] && trace[|trace| - 1].0 == 2
      {
        var seen: Pair;
        ghost var before, expired := next, false;
        outcome, seen, next, expired := Turn(state, worlds[i], next);
        TurnFollows(before, worlds[i], expired, disableStage2);
        ChainSnoc(trace, seen, next.Pair());
        MarchesSnoc(trace, seen, next.Pair(), worlds, disableStage2);
        trace := trace + [seen];
        i := i + 1;
      }
    }
  }

  lemma ChainSnoc(trace: seq<Pair>, p: Pair, q: Pair)
    requires Chain(trace + [p])
    ensures Follows(p, q) ==> Chain(trace + [p] + [q])
  {
    var t, u := trace + [p], trace + [p] + [q];
    forall i | 0 <= i < |u| - 1 && Follows(p, q)
      ensures Follows(u[i], u[i + 1])
    {
      if i < |trace| {
        assert Follows(t[i], t[i + 1]);
      }
    }
  }

  // ---------- Several sessions ----------

  /** Steps of a chain, and falls from stage 2 back to stage 1 if there were stops in the gap. */
  ghost predicate Linked(trace: seq<Pair>, gaps: bool) {
    forall i :: 0 <= i < |trace| - 1 ==>
      Follows(trace[i], trace[i + 1]) || (gaps && trace[i].0 == 2 && trace[i + 1] == (1, 1))
  }

  lemma LinkedJoin(a: seq<Pair>, p: Pair, b: seq<Pair>, q: Pair, gapsA: bool, gapsB: bool)
    requires Linked(a + [p], gapsA) && Linked(b + [q], gapsB) && (b + [q])[0] == p
    ensures Linked(a + b + [q], gapsA || gapsB)
  {
    var t, u, v := a + [p], b + [q], a + b + [q];
    forall i | 0 <= i < |v| - 1
      ensures Follows(v[i], v[i + 1]) || ((gapsA || gapsB) && v[i].0 == 2 && v[i + 1] == (1, 1))
    {
      if i < |a| {
        assert v[i] == t[i] && v[i + 1] == t[i + 1];
      } else {
        assert v[i] == u[i - |a|] && v[i + 1] == u[i - |a| + 1];
      }
    }
  }

  /**
   Any number of sessions over one output directory, empty at first. What they see, one after the other,
   goes through the iterations in order; a session stopped in the gap, and nothing else, sends the run
   back to stage 1.
   */
  method Sessions(sessions: seq<(seq<World>, bool)>, disableStage2: bool, timers: TimerDir)
    returns (trace: seq<Pair>, gaps: bool)
    modifies timers
    ensures trace != [] ==> trace[0] == (0, 0)
    ensures Linked(trace, gaps)
    ensures !gaps ==> Chain(trace)
    ensures gaps ==> exists n, i :: 0 <= n < |sessions| && 0 <= i < |sessions[n].0| && sessions[n].0[i].stops
  {
    var outdir := new OutDir();
    ghost var l := Fresh;
    trace, gaps := [], false;
    var n := 0;
    while n < |sessions|
      invariant 0 <= n <= |sessions|
      invariant fresh(outdir) && LaidOut(outdir.names, l) && outdir.Valid()
      invariant (trace + [l.Pair()])[0] == (0, 0)
      invariant Linked(trace + [l.Pair()], gaps)
      invariant gaps ==> exists m, i :: 0 <= m < n && 0 <= i < |sessions[m].0| && sessions[m].0[i].stops
    {
      hide LaidOut, Follows;
      var driver := new PmFuzz(outdir, timers, disableStage2);
      ghost var next: Layout;
      var outcome: Outcome;
      var seen: seq<Pair>;
      outcome, seen, next := driver.RunPmfuzz(sessions[n].0, sessions[n].1, l);
      SessionLinked(seen, next.Pair(), outcome.StoppedInGap?);
      LinkedJoin(trace, l.Pair(), seen, next.Pair(), gaps, outcome.StoppedInGap?);
      trace := trace + seen;
      gaps := gaps || outcome.StoppedInGap?;
      l := next;
      n := n + 1;
    }
    LinkedPrefix(trace, l.Pair(), gaps);
  }

  lemma LinkedPrefix(trace: seq<Pair>, p: Pair, gaps: bool)
    requires Linked(trace + [p], gaps)
    ensures Linked(trace, gaps)
  {
    var u := trace + [p];
    forall i | 0 <= i < |trace| - 1
      ensures Follows(trace[i], trace[i + 1]) || (gaps && trace[i].0 == 2 && trace[i + 1] == (1, 1))
    {
      assert u[i] == trace[i] && u[i + 1] == trace[i + 1];
    }
  }

  lemma SessionLinked(seen: seq<Pair>, q: Pair, gap: bool)
    requires Chain(seen) && (!gap ==> Chain(seen + [q]))
    requires gap ==> q == (1, 1) && seen != [] && seen[|seen| - 1].0 == 2
    ensures Linked(seen + [q], gap)
  {
    var u := seen + [q];
    forall i | 0 <= i < |u| - 1
      ensures Follows(u[i], u[i + 1]) || (gap && u[i].0 == 2 && u[i + 1] == (1, 1))
    {
      if i < |seen| - 1 {
        assert Follows(seen[i], seen[i + 1]);
      }
    }
  }
}
