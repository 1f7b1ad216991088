/**
 A pool of at most `cores` child processes that exit at arbitrary moments.
 Source: src/pmfuzz/helper/parallel.py.
 */
module Parallel {
  import opened ListDeletion

  type Pid = nat

  lemma {:induction false} DistinctCount(list: seq<Pid>, s: set<Pid>)
    requires forall p :: p in s ==> p in list
    ensures |s| <= |list|
  {
    if list == [] {
      assert s == {};
    } else {
      var n := |list| - 1;
      DistinctCount(list[..n], s - {list[n]});
      assert s <= (s - {list[n]}) + {list[n]};
    }
  }

  /** Exits are final, and only children that were started exit. */
  ghost predicate Later(before: map<Pid, int>, after: map<Pid, int>, started: nat) {
    && (forall p :: p in before ==> p in after && after[p] == before[p])
    && (forall p :: p in after ==> p in before || p < started)
  }

  /**
   What one pass over the list saw: a child seen alive had not exited when the pass began, one seen
   dead has exited since, and with 0 if `clean`.
   */
  ghost predicate Saw(list: seq<Pid>, dead: set<nat>, before: map<Pid, int>, after: map<Pid, int>, clean: bool) {
    forall i :: 0 <= i < |list| ==>
      if i in dead then list[i] in after && (clean ==> after[list[i]] == 0) else list[i] !in before
  }

  /** One more child was looked at. */
  lemma SawNext(list: seq<Pid>, i: nat, dead: set<nat>, before: map<Pid, int>, mid: map<Pid, int>,
                after: map<Pid, int>, clean: bool, started: nat)
    requires i < |list| && forall j :: j in dead ==> j < i
    requires Saw(list[..i], dead, before, mid, clean) && Later(before, mid, started) && Later(mid, after, started)
    ensures Later(before, after, started)
    ensures list[i] !in after ==> Saw(list[..i + 1], dead, before, after, clean)
    ensures list[i] in after && (clean ==> after[list[i]] == 0) ==>
              Saw(list[..i + 1], dead + {i}, before, after, clean)
  {
    assert list[..i + 1] == list[..i] + [list[i]];
  }

  /** Some child of the list exited with a code other than 0. */
  ghost predicate Failed(list: seq<Pid>, exited: map<Pid, int>) {
    exists i :: 0 <= i < |list| && list[i] in exited && exited[list[i]] != 0
  }

  /** A pass that sees no failure: no child had failed when it began. */
  lemma NoneFailed(
    list: seq<Pid>, dead: set<nat>, before: map<Pid, int>, after: map<Pid, int>, clean: bool, started: nat)
    requires Saw(list, dead, before, after, clean) && Later(before, after, started)
    ensures clean ==> !Failed(list, before)
  {
    if clean {
      forall i | 0 <= i < |list| && list[i] in before
        ensures before[list[i]] == 0
      {
        assert i in dead;
      }
    }
  }

  class Pool {
    const cores: nat
    /** FAILURE_EXIT rather than FAILURE_CONT. */
    const failureExit: bool
    var pobjs: seq<Pid>
    /** The children started so far are 0, 1, ...; those that exited have an exit code. */
    var started: nat
    var exited: map<Pid, int>
    /** The most children that were ever alive at once. */
    ghost var peak: nat

    ghost function Live(): set<Pid>
      reads this
    {
      set p | 0 <= p < started && p !in exited
    }

    /** Every live child is in the list, and whoever left the list of a FAILURE_EXIT pool exited with 0. */
    ghost predicate Valid()
      reads this
    {
      && cores >= 1 && |pobjs| <= cores && peak <= cores
      && Distinct(pobjs) && (forall p :: p in pobjs ==> p < started)
      && (forall p :: p in exited ==> p < started)
      && (forall p :: p in Live() ==> p in pobjs)
      && (failureExit ==> forall p :: 0 <= p < started && p !in pobjs ==> p in exited && exited[p] == 0)
    }

    constructor (cores: nat, failureExit: bool)
      requires cores >= 1
      ensures Valid() && this.cores == cores && this.failureExit == failureExit
      ensures pobjs == [] && started == 0 && exited == map[] && peak == 0
    {
      this.cores, this.failureExit := cores, failureExit;
      pobjs, started, exited, peak := [], 0, map[], 0;
    }

    /** The constructor aborts on a core count below 1. */
    static method Create(cores: int, failureExit: bool) returns (pool: Pool?)
      ensures pool == null <==> cores < 1
      ensures pool != null ==> fresh(pool) && pool.Valid() && pool.cores == cores && pool.failureExit == failureExit
      ensures pool != null ==> pool.started == 0 && pool.peak == 0
    {
      if cores < 1 {
        return null;
      }
      pool := new Pool(cores, failureExit);
    }

    /** Time passes: any children may exit, with any codes. */
    method Elapse()
      modifies `exited
      ensures Later(old(exited), exited, started)
      ensures old(Valid()) ==> Valid()
    {
      var codes: map<Pid, int> := *;
      var more := map p: Pid | p in codes && p < started :: codes[p];
      exited := more + exited;
      assert Live() <= old(Live());
    }

    method IsAlive(p: Pid) returns (alive: bool)
      requires p < started
      modifies `exited
      ensures Later(old(exited), exited, started) && (old(Valid()) ==> Valid())
      ensures alive <==> p !in exited
    {
      Elapse();
      alive := p !in exited;
    }

    /**
     `alive_cnt`: the list is left with exactly the children seen alive, in order. A FAILURE_EXIT pool
     aborts on the first child seen dead with a code other than 0, so always when one had failed before.
     */
    method AliveCnt() returns (cnt: nat, aborted: bool, ghost dead: set<nat>)
      requires Valid()
      modifies `exited, `pobjs
      ensures Valid() && Later(old(exited), exited, started)
      ensures aborted ==> pobjs == old(pobjs) && failureExit && exists p :: p in pobjs && p in exited && exited[p] != 0
      ensures failureExit && Failed(old(pobjs), old(exited)) ==> aborted
      ensures !aborted ==> forall i :: i in dead ==> i < |old(pobjs)|
      ensures !aborted ==> Saw(old(pobjs), dead, old(exited), exited, failureExit)
      ensures !aborted ==> pobjs == Kept(old(pobjs), dead) && cnt == |pobjs| <= |old(pobjs)|
      ensures !aborted ==> forall p :: p in old(pobjs) && p in old(exited) ==> p !in pobjs
      ensures !aborted ==> forall p :: p in old(pobjs) && p !in pobjs ==>
                p in exited && (failureExit ==> exited[p] == 0)
    {
      hide Saw, Later, IndicesFrom, Ascending, Valid, Failed;
      cnt, aborted, dead := 0, false, {};
      var idxToDelete: seq<nat> := [];
      var idx := 0;
      ghost var before := exited;
      SawNothing(pobjs, before, failureExit, started);
      while idx < |pobjs|
        invariant 0 <= idx <= |pobjs| && pobjs == old(pobjs)
        invariant Valid() && Later(before, exited, started)
        invariant Ascending(idxToDelete) && IndicesFrom(idxToDelete, 0) == dead && cnt == idx - |dead|
        invariant forall k :: 0 <= k < |idxToDelete| ==> idxToDelete[k] < idx
        invariant forall i :: i in dead ==> i < idx
        invariant Saw(pobjs[..idx], dead, before, exited, failureExit)
      {
        InList(idx);
        ghost var mid := exited;
        var p := pobjs[idx];
        var alive := IsAlive(p);
        SawNext(pobjs, idx, dead, before, mid, exited, failureExit, started);
        if alive {
          cnt := cnt + 1;
        } else {
          if failureExit && exited[p] != 0 {
            return 0, true, {};
          }
          FromSnoc(idxToDelete, idx);
          idxToDelete := idxToDelete + [idx];
          dead := dead + {idx};
        }
        idx := idx + 1;
      }
      assert pobjs[..idx] == pobjs;
      NoneFailed(pobjs, dead, before, exited, failureExit, started);
      Reap(idxToDelete, dead, before);
    }

    lemma InList(i: nat)
      requires Valid() && i < |pobjs|
      ensures pobjs[i] in pobjs && pobjs[i] < started
    {
      assert pobjs[i] in pobjs;
    }

    /** The end of `alive_cnt`. */
    method Reap(idxToDelete: seq<nat>, ghost dead: set<nat>, ghost before: map<Pid, int>)
      requires Valid() && Ascending(idxToDelete) && IndicesFrom(idxToDelete, 0) == dead
      requires forall k :: 0 <= k < |idxToDelete| ==> idxToDelete[k] < |pobjs|
      requires Saw(pobjs, dead, before, exited, failureExit)
      modifies `pobjs
      ensures Valid() && pobjs == Kept(old(pobjs), dead) && |pobjs| == |old(pobjs)| - |dead|
      ensures forall p :: p in old(pobjs) && p in before ==> p !in pobjs
      ensures forall p :: p in old(pobjs) && p !in pobjs ==> p in exited && (failureExit ==> exited[p] == 0)
    {
      KeptLength(pobjs, dead);
      KeptMembers(pobjs, dead);
      KeptDistinct(pobjs, dead);
      var left := DeleteEntries(pobjs, idxToDelete);
      KeptChildren(pobjs, dead, left, before);
      pobjs := left;
    }

    lemma KeptChildren(list: seq<Pid>, dead: set<nat>, left: seq<Pid>, before: map<Pid, int>)
      requires Valid() && list == pobjs && left == Kept(list, dead)
      requires Saw(list, dead, before, exited, failureExit)
      ensures forall p :: p in left ==> p in list && p !in before
      ensures forall p :: p in list && p !in left ==> p in exited && (failureExit ==> exited[p] == 0)
    {
      KeptMembers(list, dead);
      forall p | p in left
        ensures p in list && p !in before
      {
        var i :| 0 <= i < |list| && i !in dead && list[i] == p;
      }
      forall p | p in list && p !in left
        ensures p in exited && (failureExit ==> exited[p] == 0)
      {
        var i :| 0 <= i < |list| && list[i] == p;
        assert i in dead;
      }
    }

    /**
     `run`: waits until some child is seen dead when the pool is full, then starts one more. `patience`
     bounds the busy wait; when it runs out the call is still waiting.
     */
    method Run(patience: nat) returns (running: bool, aborted: bool)
      requires Valid()
      modifies this
      ensures Valid() && Later(old(exited), exited, started) && peak >= old(peak)
      ensures running ==> started == old(started) + 1 && pobjs != [] && pobjs[|pobjs| - 1] == old(started)
      ensures running ==> old(started) in Live()
      ensures !running ==> started == old(started)
      ensures aborted ==> !running && failureExit && exists p :: p in pobjs && p in exited && exited[p] != 0
      ensures old(|pobjs|) < cores && !failureExit ==> running
      ensures old(pobjs) == [] ==> running && pobjs == [old(started)]
      ensures failureExit && old(Failed(pobjs, exited)) ==> aborted
    {
      var cnt: nat;
      ghost var dead: set<nat>;
      var polls := 0;
      cnt, aborted, dead := AliveCnt();
      while !aborted && cnt == cores && polls < patience
        invariant Valid() && Later(old(exited), exited, started) && peak == old(peak) && started == old(started)
        invariant !aborted ==> cnt == |pobjs|
        invariant aborted ==> failureExit && exists p :: p in pobjs && p in exited && exited[p] != 0
        invariant old(|pobjs|) < cores && !aborted ==> cnt < cores
        invariant old(pobjs) == [] ==> pobjs == [] && !aborted
        invariant failureExit && old(Failed(pobjs, exited)) ==> aborted
      {
        cnt, aborted, dead := AliveCnt();
        polls := polls + 1;
      }
      running := !aborted && cnt != cores;
      if running {
        forall k | 0 <= k < |pobjs|
          ensures pobjs[k] < started
        {
          InList(k);
        }
        started := started + 1;
        pobjs := pobjs + [started - 1];
        DistinctCount(pobjs, Live());
        peak := if |Live()| > peak then |Live()| else peak;
      }
    }

    /** `alive`: some child of the list is alive. */
    method Alive() returns (result: bool)
      requires Valid()
      modifies `exited
      ensures Valid() && Later(old(exited), exited, started)
      ensures result <==> Live() != {}
    {
      result := false;
      var i := 0;
      while i < |pobjs|
        invariant 0 <= i <= |pobjs| && Valid() && Later(old(exited), exited, started)
        invariant !result && forall j :: 0 <= j < i ==> pobjs[j] in exited
      {
        assert pobjs[i] in pobjs;
        result := IsAlive(pobjs[i]);
        if result {
          assert pobjs[i] in Live();
          break;
        }
        i := i + 1;
      }
    }

    /**
     `wait`: when it returns no child is alive. It looks at no exit code: in a FAILURE_EXIT pool some child has
     failed unnoticed exactly when one that was still in the list, not seen dead by the last count, has failed.
     */
    method Wait(patience: nat) returns (done: bool)
      requires Valid()
      modifies `exited
      ensures Valid() && Later(old(exited), exited, started)
      ensures done ==> forall p :: 0 <= p < started ==> p in exited
      ensures old(Live()) == {} ==> done
      ensures done && failureExit ==> forall p :: 0 <= p < started && p !in pobjs ==> exited[p] == 0
      ensures done && failureExit ==> ((exists p :: 0 <= p < started && exited[p] != 0) <==> Failed(pobjs, exited))
    {
      var polls := 0;
      var alive := Alive();
      while alive && polls < patience
        invariant Valid() && Later(old(exited), exited, started)
        invariant !alive ==> Live() == {}
        invariant old(Live()) == {} ==> !alive
      {
        alive := Alive();
        polls := polls + 1;
      }
      done := !alive;
      if done {
        assert forall p :: 0 <= p < started && p !in exited ==> p in Live();
        if failureExit {
          UnnoticedIff();
        }
      }
    }

    lemma UnnoticedIff()
      requires Valid() && failureExit && forall p :: 0 <= p < started ==> p in exited
      ensures (exists p :: 0 <= p < started && exited[p] != 0) <==> Failed(pobjs, exited)
    {
      if p :| 0 <= p < started && exited[p] != 0 {
        assert p in pobjs;
        var i :| 0 <= i < |pobjs| && pobjs[i] == p;
        assert pobjs[i] in exited;
      }
      if Failed(pobjs, exited) {
        var i :| 0 <= i < |pobjs| && pobjs[i] in exited && exited[pobjs[i]] != 0;
        InList(i);
      }
    }

    /** The child exits. */
    method Exits(p: Pid, code: int)
      requires Valid() && p in Live()
      modifies `exited
      ensures Valid() && exited == old(exited)[p := code]
    {
      exited := exited[p := code];
    }
  }

  lemma FromSnoc(idx: seq<nat>, i: nat)
    requires Ascending(idx) && forall k :: 0 <= k < |idx| ==> idx[k] < i
    ensures IndicesFrom(idx + [i], 0) == IndicesFrom(idx, 0) + {i} && Ascending(idx + [i]) && i !in IndicesFrom(idx, 0)
  {
    assert (idx + [i])[0..] == idx[0..] + [i];
  }

  lemma SawNothing(list: seq<Pid>, before: map<Pid, int>, clean: bool, started: nat)
    ensures Saw(list[..0], {}, before, before, clean) && Later(before, before, started)
    ensures Ascending([]) && IndicesFrom([], 0) == {}
  {
  }

  /** A pool's whole life: every job that is started is one child, and no more than `cores` are ever alive. */
  method RunJobs(cores: int, failureExit: bool, jobs: nat, patience: nat) returns (done: bool, pool: Pool?)
    ensures pool == null <==> cores < 1
    ensures pool != null ==> fresh(pool) && pool.Valid() && pool.peak <= cores && pool.started <= jobs
    ensures done ==> pool != null && pool.started == jobs && forall p :: 0 <= p < jobs ==> p in pool.exited
  {
    done := false;
    pool := Pool.Create(cores, failureExit);
    if pool == null {
      return;
    }
    var i := 0;
    while i < jobs
      invariant 0 <= i <= jobs && pool.Valid() && fresh(pool) && pool.started == i && pool.cores == cores
    {
      var running, aborted := pool.Run(patience);
      if !running {
        return;
      }
      i := i + 1;
    }
    done := pool.Wait(patience);
  }

  /** A pool that is to exit on failure: its only child fails, and `wait` returns as if nothing had happened. */
  method UnnoticedFailure() returns (done: bool, pool: Pool)
    ensures fresh(pool) && pool.failureExit && pool.started == 1
    ensures done && 0 in pool.exited && pool.exited[0] == 1
  {
    pool := new Pool(1, true);
    var running, aborted := pool.Run(0);
    pool.Exits(0, 1);
    done := pool.Wait(0);
  }
}
