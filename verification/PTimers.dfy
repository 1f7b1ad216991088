/** Persistent countdown timers, one file per name. Source: src/pmfuzz/helper/ptimer.py. */
module PTimers {

  /** What a timer file holds. Times are whole ticks of any unit. */
  datatype Timer = Timer(start: int, length: int) {
    predicate IsNew() {
      start == 0
    }

    predicate ExpiredAt(now: int) {
      now - start > length
    }
  }

  const CLEARED := Timer(0, 0)

  /** The directory of timer files, and the system clock. */
  class TimerDir {
    var files: map<string, Timer>
    var clock: int

    constructor (now: int)
      ensures files == map[] && clock == now
    {
      files := map[];
      clock := now;
    }

    /** A missing file reads as a cleared timer. */
    function Get(name: string): Timer
      reads this
    {
      if name in files then files[name] else CLEARED
    }

    /** time.time(): any amount of time may have passed since the clock was last read. */
    method Now() returns (t: int)
      modifies this`clock
      ensures t == clock && old(clock) <= clock
    {
      var passed: int := *;
      if passed > 0 {
        clock := clock + passed;
      }
      t := clock;
    }

    /** More than `d` ticks pass. */
    method Sleep(d: nat)
      modifies this`clock
      ensures clock > old(clock) + d
    {
      var more: int := *;
      clock := clock + d + 1 + (if more > 0 then more else 0);
    }
  }

  class PTimer {
    const dir: TimerDir
    const name: string
    var state: Timer

    /** The file on disk is the state in memory. */
    ghost predicate Synced()
      reads this, dir
    {
      name in dir.files && dir.files[name] == state
    }

    /** Reads the file if there is one, and writes it back either way. */
    constructor (dir: TimerDir, name: string)
      modifies dir`files
      ensures this.dir == dir && this.name == name
      ensures Synced() && state == old(dir.Get(name))
      ensures state == if name in old(dir.files) then old(dir.files)[name] else Timer(0, 0)
      ensures dir.files == old(dir.files)[name := state]
    {
      this.dir := dir;
      this.name := name;
      state := CLEARED;
      new;
      if name in dir.files {
        state := dir.files[name];
      }
      Sync();
    }

    method Sync()
      modifies dir`files
      ensures Synced() && dir.files == old(dir.files)[name := state]
    {
      dir.files := dir.files[name := state];
    }

    method Set(length: int)
      modifies this`state, dir`files
      ensures Synced() && state == old(state).(length := length)
      ensures dir.files == old(dir.files)[name := state]
    {
      state := state.(length := length);
      Sync();
    }

    method Start()
      modifies this`state, dir
      ensures Synced() && dir.clock >= old(dir.clock) && state == old(state).(start := dir.clock)
      ensures dir.files == old(dir.files)[name := state]
    {
      var now := dir.Now();
      state := state.(start := now);
      Sync();
    }

    method Clear()
      modifies this`state, dir`files
      ensures Synced() && state == CLEARED
      ensures dir.files == old(dir.files)[name := CLEARED]
    {
      state := CLEARED;
      Sync();
    }

    method StartNew(length: int)
      modifies this`state, dir
      ensures Synced() && dir.clock >= old(dir.clock) && state == Timer(dir.clock, length)
      ensures dir.files == old(dir.files)[name := state]
    {
      Clear();
      Set(length);
      Start();
    }

    method Expired() returns (b: bool)
      modifies dir`clock
      ensures dir.clock >= old(dir.clock)
      ensures b <==> state.ExpiredAt(dir.clock)
      ensures b <==> dir.clock - state.start > state.length
    {
      var now := dir.Now();
      b := now - state.start > state.length;
    }

    method IsNew() returns (b: bool)
      ensures b <==> state.IsNew()
      ensures b <==> state.start == 0
    {
      b := state.start == 0;
    }
  }

  /**
   A countdown of `length` ticks, looked at by another session after at least `passed` more: it runs out once more
   than `length` ticks have passed since it was started, and not before.
   */
  method Countdown(dir: TimerDir, name: string, length: int, passed: nat) returns (b: bool, ghost started: int)
    requires dir.clock > 0
    modifies dir
    ensures old(dir.clock) <= started <= started + passed <= dir.clock
    ensures b <==> dir.clock - started > length
    ensures dir.files.Keys == old(dir.files).Keys + {name}
    ensures forall m :: m in old(dir.files) && m != name ==> dir.files[m] == old(dir.files)[m]
  {
    var timer := new PTimer(dir, name);
    timer.StartNew(length);
    started := dir.clock;
    if passed > 0 {
      dir.Sleep(passed);
    }
    var later := new PTimer(dir, name);
    var isNew := later.IsNew();
    assert !isNew;
    b := later.Expired();
  }
}
