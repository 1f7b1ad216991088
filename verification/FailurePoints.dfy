/**
 Runs of an instrumented program, on values: accesses touch the coverage map, failure points may
 dump the pool image when the map has changed since the last dump (IMG_GEN mode).
 */
module FailurePoints {
  import opened Bits
  import opened PmMap

  /** FI_MODE unset or empty, or IMG_GEN. */
  datatype FiMode = NoInjection | ImgGen

  /** What `pmfuzz_inject_failure` reads besides the map: rand(), FI_MODE, GEN_ALL_CS and IMG_CREAT_FINJ. */
  datatype Request = Request(rand: nat, mode: FiMode, genAll: bool, imgCreate: bool)

  datatype Event = Init | Call(access: Access) | Point(request: Request)

  datatype Dump = Dump(id: Word, edges: seq<nat>)

  /** `edges` and `snapshot` are all indices touched until now and until the last dump. */
  datatype State = State(
    initialized: bool,
    edges: seq<nat>,
    prev: nat,
    failureId: Word,
    snapshot: seq<nat>,
    dumps: seq<Dump>)

  const START := State(false, [], 0, 0xFFFF_FFFF, [], [])

  // ---------- Counters ----------

  function Count(edges: seq<nat>, i: nat): nat {
    multiset(edges)[i]
  }

  /** The largest value an element of the map can show. */
  function Cap(mode: Mode): nat {
    match mode
    case Path => COUNTER_CAP
    case Baseline => 8 * REGISTER_SIZE
  }

  /** What the map shows after `edges`: one capped count per element. */
  function Levels(mode: Mode, k: nat, edges: seq<nat>): (ls: seq<nat>)
    ensures |ls| == ElemCount(mode, k)
  {
    seq(ElemCount(mode, k), i requires i >= 0 => Min(Count(edges, i), Cap(mode)))
  }

  // ---------- Steps ----------

  /** Whether this failure point may dump, the map aside. */
  predicate SaveImage(id: Word, r: Request) {
    if r.imgCreate then true
    else if r.genAll then id < 100 && id % 5 == 0
    else id != 0 && r.rand % 10000 < 10000 / id
  }

  function StepCall(mode: Mode, k: nat, s: State, a: Access): State
    requires Sized(k)
  {
    var elems := Elems(mode, k, Locs(k, a));
    s.(edges := s.edges + EdgeTrace(s.prev, elems), prev := PrevAfter(s.prev, elems))
  }

  function StepPoint(mode: Mode, k: nat, s: State, r: Request): State {
    var id := (s.failureId + 1) % 0x1_0000_0000;
    if s.initialized && r.mode.ImgGen? && SaveImage(id, r)
       && Levels(mode, k, s.edges) != Levels(mode, k, s.snapshot)
    then s.(failureId := id, snapshot := s.edges, dumps := s.dumps + [Dump(id, s.edges)])
    else s.(failureId := id)
  }

  function Step(mode: Mode, k: nat, s: State, e: Event): State
    requires Sized(k)
  {
    match e
    case Init => s.(initialized := true)
    case Call(a) => StepCall(mode, k, s, a)
    case Point(r) => StepPoint(mode, k, s, r)
  }

  function Run(mode: Mode, k: nat, events: seq<Event>): State
    requires Sized(k)
  {
    if events == [] then START
    else Step(mode, k, Run(mode, k, events[..|events| - 1]), events[|events| - 1])
  }

  function CallOf(e: Event): seq<Access> {
    if e.Call? then [e.access] else []
  }

  function CallsOf(events: seq<Event>): seq<Access> {
    if events == [] then [] else CallsOf(events[..|events| - 1]) + CallOf(events[|events| - 1])
  }

  function PointsOf(events: seq<Event>): nat {
    if events == [] then 0
    else PointsOf(events[..|events| - 1]) + (if events[|events| - 1].Point? then 1 else 0)
  }

  // ---------- Failure points leave the coverage map alone ----------

  lemma ElemsAppend(mode: Mode, k: nat, a: seq<nat>, b: seq<nat>)
    requires Sized(k)
    ensures Elems(mode, k, a + b) == Elems(mode, k, a) + Elems(mode, k, b)
  {
  }

  /** The map and the previous location are those of `calls`. */
  ghost predicate Shows(mode: Mode, k: nat, s: State, calls: seq<Access>)
    requires Sized(k)
  {
    && s.edges == Touched(mode, k, calls)
    && s.prev == PrevAfter(0, Elems(mode, k, LocsOf(k, calls)))
  }

  lemma CallShows(mode: Mode, k: nat, s: State, calls: seq<Access>, a: Access)
    requires Sized(k) && Shows(mode, k, s, calls)
    ensures Shows(mode, k, StepCall(mode, k, s, a), calls + [a])
  {
    assert (calls + [a])[..|calls|] == calls;
    var locs, more := LocsOf(k, calls), Locs(k, a);
    assert LocsOf(k, calls + [a]) == locs + more;
    ElemsAppend(mode, k, locs, more);
    EdgeTraceAppend(0, Elems(mode, k, locs), Elems(mode, k, more));
  }

  lemma StepShows(mode: Mode, k: nat, s: State, calls: seq<Access>, e: Event)
    requires Sized(k) && Shows(mode, k, s, calls)
    ensures Shows(mode, k, Step(mode, k, s, e), calls + CallOf(e))
  {
    if e.Call? {
      CallShows(mode, k, s, calls, e.access);
    } else {
      assert calls + CallOf(e) == calls;
      assert Step(mode, k, s, e).edges == s.edges && Step(mode, k, s, e).prev == s.prev;
    }
  }

  lemma StartShows(mode: Mode, k: nat)
    requires Sized(k)
    ensures Shows(mode, k, START, [])
  {
    assert LocsOf(k, []) == [];
  }

  /** The map of a run is the map of its accesses alone. */
  lemma {:induction false} RunTouches(mode: Mode, k: nat, events: seq<Event>)
    requires Sized(k)
    ensures Shows(mode, k, Run(mode, k, events), CallsOf(events))
  {
    if events == [] {
      StartShows(mode, k);
    } else {
      var before, e := events[..|events| - 1], events[|events| - 1];
      RunTouches(mode, k, before);
      StepShows(mode, k, Run(mode, k, before), CallsOf(before), e);
    }
  }

  // ---------- Failure ids ----------

  lemma RunLast(mode: Mode, k: nat, events: seq<Event>)
    requires Sized(k) && events != []
    ensures var before, e := events[..|events| - 1], events[|events| - 1];
            && Run(mode, k, events) == Step(mode, k, Run(mode, k, before), e)
            && Run(mode, k, events).failureId ==
               (var id := Run(mode, k, before).failureId; if e.Point? then (id + 1) % 0x1_0000_0000 else id)
            && PointsOf(events) == PointsOf(before) + (if e.Point? then 1 else 0)
            && (!e.Point? ==> Run(mode, k, events).dumps == Run(mode, k, before).dumps)
  {
  }

  lemma WrapNext(n: nat)
    ensures ((n + 0xFFFF_FFFF) % 0x1_0000_0000 + 1) % 0x1_0000_0000 == (n + 1 + 0xFFFF_FFFF) % 0x1_0000_0000
    ensures 0 < n <= 0x1_0000_0000 ==> (n + 0xFFFF_FFFF) % 0x1_0000_0000 == n - 1
    ensures n < 0x1_0000_0000 ==> (n + 1 + 0xFFFF_FFFF) % 0x1_0000_0000 == n
  {
  }

  /** Ids count failure points from 0 and wrap at 2^32. */
  lemma {:induction false} FailureIds(mode: Mode, k: nat, events: seq<Event>)
    requires Sized(k)
    ensures Run(mode, k, events).failureId == (PointsOf(events) + 0xFFFF_FFFF) % 0x1_0000_0000
  {
    if events != [] {
      hide Step, Run, PointsOf;
      FailureIds(mode, k, events[..|events| - 1]);
      RunLast(mode, k, events);
      WrapNext(PointsOf(events[..|events| - 1]));
    }
  }

  ghost predicate IdsIncrease(dumps: seq<Dump>) {
    forall i, j :: 0 <= i < j < |dumps| ==> dumps[i].id < dumps[j].id
  }

  lemma PointKeepsIdsIncreasing(mode: Mode, k: nat, s: State, r: Request, points: nat)
    requires points < 0x1_0000_0000 && (s.failureId + 1) % 0x1_0000_0000 == points
    requires IdsIncrease(s.dumps) && forall i :: 0 <= i < |s.dumps| ==> s.dumps[i].id < points
    ensures var dumps := StepPoint(mode, k, s, r).dumps;
            IdsIncrease(dumps) && forall i :: 0 <= i < |dumps| ==> dumps[i].id < points + 1
  {
  }

  /** Until ids wrap, each dump has a larger id than every dump before it. */
  lemma {:induction false} DumpIdsIncrease(mode: Mode, k: nat, events: seq<Event>)
    requires Sized(k) && PointsOf(events) <= 0x1_0000_0000
    ensures var dumps := Run(mode, k, events).dumps;
            IdsIncrease(dumps) && forall i :: 0 <= i < |dumps| ==> dumps[i].id < PointsOf(events)
  {
    if events != [] {
      hide StepPoint, StepCall, Run, PointsOf;
      var before, e := events[..|events| - 1], events[|events| - 1];
      RunLast(mode, k, events);
      DumpIdsIncrease(mode, k, before);
      if e.Point? {
        FailureIds(mode, k, before);
        WrapNext(PointsOf(before));
        PointKeepsIdsIncreasing(mode, k, Run(mode, k, before), e.request, PointsOf(before));
      }
    }
  }

  /**
   The failure points that may save an image for some value of `rand`: all under IMG_CREAT_FINJ, else the
   multiples of 5 below 100 under GEN_ALL_CS, else those with ids 1 to 10000.
   */
  lemma SaveImageWindow(id: Word, mode: FiMode, genAll: bool, imgCreate: bool)
    ensures (exists rand :: SaveImage(id, Request(rand, mode, genAll, imgCreate))) <==>
            imgCreate || if genAll then id % 5 == 0 && id <= 95 else 1 <= id <= 10000
  {
    if id >= 1 {
      QuotientPositive(10000, id);
    }
    var q: nat := if id >= 1 then 10000 / id else 0;
    if imgCreate || if genAll then id % 5 == 0 && id <= 95 else 1 <= id <= 10000 {
      assert SaveImage(id, Request(0, mode, genAll, imgCreate));
    } else if !genAll {
      assert id >= 1 ==> q == 0;
      assert forall rand: nat :: SaveImage(id, Request(rand, mode, genAll, imgCreate)) ==> rand % 10000 < q;
    }
  }

  lemma QuotientPositive(n: nat, d: nat)
    requires d > 0
    ensures n / d > 0 <==> d <= n
  {
  }

  lemma {:induction false} NoPointsNoDumps(mode: Mode, k: nat, events: seq<Event>)
    requires Sized(k) && PointsOf(events) == 0
    ensures var s := Run(mode, k, events);
            s.failureId == START.failureId && s.snapshot == [] && s.dumps == []
  {
    if events != [] {
      NoPointsNoDumps(mode, k, events[..|events| - 1]);
    }
  }

  lemma PointAtIdZero(mode: Mode, k: nat, s: State, r: Request)
    requires s.initialized && r.mode.ImgGen?
    requires s.failureId == 0xFFFF_FFFF && s.snapshot == [] && s.dumps == []
    ensures StepPoint(mode, k, s, r).dumps != [] <==>
            Levels(mode, k, s.edges) != Levels(mode, k, []) && (r.genAll || r.imgCreate)
  {
  }

  /**
   The documentation promises a dump at the first failure point. There is one exactly when the map
   has changed and GEN_ALL_CS or IMG_CREAT_FINJ asks for it.
   */
  lemma FirstPointDumps(mode: Mode, k: nat, events: seq<Event>, r: Request)
    requires Sized(k) && r.mode.ImgGen?
    requires PointsOf(events) == 0 && Run(mode, k, events).initialized
    ensures Run(mode, k, events + [Point(r)]).dumps != [] <==>
            Levels(mode, k, Run(mode, k, events).edges) != Levels(mode, k, []) && (r.genAll || r.imgCreate)
  {
    NoPointsNoDumps(mode, k, events);
    var s := Run(mode, k, events);
    RunSnoc(mode, k, events, Point(r));
    PointAtIdZero(mode, k, s, r);
  }

  /** A run whose map has changed at the first failure point, and no dump. */
  lemma FirstPointWithoutDump()
    ensures var events := [Init, Call(Ro(0))];
            && Levels(Path, 8, Run(Path, 8, events).edges) != Levels(Path, 8, [])
            && forall rand :: Run(Path, 8, events + [Point(Request(rand, ImgGen, false, false))]).dumps == []
  {
    var events := [Init, Call(Ro(0))];
    assert events[..1] == [Init] && [Init][..0] == [];
    assert Run(Path, 8, []) == START;
    assert Run(Path, 8, [Init]) == Step(Path, 8, START, Init);
    var s := Run(Path, 8, events);
    assert s == StepCall(Path, 8, Run(Path, 8, [Init]), Ro(0));
    FirstTouch(s);
    assert PointsOf([]) == 0 && PointsOf([Init]) == 0 && PointsOf(events) == 0;
    forall rand
      ensures Run(Path, 8, events + [Point(Request(rand, ImgGen, false, false))]).dumps == []
    {
      FirstPointDumps(Path, 8, events, Request(rand, ImgGen, false, false));
    }
  }

  lemma FirstTouch(s: State)
    requires s == StepCall(Path, 8, Step(Path, 8, START, Init), Ro(0))
    ensures s.initialized && Levels(Path, 8, s.edges) != Levels(Path, 8, [])
  {
    var t := Step(Path, 8, START, Init);
    var loc := Locs(8, Ro(0))[0];
    ReadsLowWritesHigh(8, 0, Ro(0));
    XorZero(loc);
    LocsSplit(8, Ro(0));
    HalfModulusSound(8);
    MapSizes(8);
    var e := EdgeTrace(0, Elems(Path, 8, Locs(8, Ro(0))));
    assert s.edges == [] + e && |e| == 1;
    assert e[0] < Pow2(7) < Pow2(8);
    assert Count(s.edges, e[0]) >= 1;
    assert Levels(Path, 8, s.edges)[e[0]] >= 1 && Levels(Path, 8, [])[e[0]] == 0;
  }

  lemma RunSnoc(mode: Mode, k: nat, events: seq<Event>, e: Event)
    requires Sized(k)
    ensures Run(mode, k, events + [e]) == Step(mode, k, Run(mode, k, events), e)
  {
    assert (events + [e])[..|events|] == events;
  }

  // ---------- Exactly which failure points dump ----------

  lemma {:induction false} PointsCounted(events: seq<Event>)
    ensures PointsOf(events) == |set j: nat | j < |events| && events[j].Point?|
  {
    var points := set j: nat | j < |events| && events[j].Point?;
    if events == [] {
      assert points == {};
    } else {
      var n := |events| - 1;
      PointsCounted(events[..n]);
      var fewer := set j: nat | j < n && events[..n][j].Point?;
      assert points == fewer + if events[n].Point? then {n} else {};
    }
  }

  /** Point `i` of the run dumps. */
  ghost predicate DumpsAt(mode: Mode, k: nat, events: seq<Event>, i: nat)
    requires Sized(k) && i < |events|
  {
    Run(mode, k, events[..i + 1]).dumps != Run(mode, k, events[..i]).dumps
  }

  lemma {:induction false} InitializedIff(mode: Mode, k: nat, events: seq<Event>)
    requires Sized(k)
    ensures Run(mode, k, events).initialized <==> exists j :: 0 <= j < |events| && events[j].Init?
  {
    if events != [] {
      var before, last := events[..|events| - 1], events[|events| - 1];
      InitializedIff(mode, k, before);
      hide StepCall, StepPoint, Run;
      RunLast(mode, k, events);
      StepInitializes(mode, k, Run(mode, k, before), last);
      assert forall j :: 0 <= j < |before| ==> before[j] == events[j];
    }
  }

  lemma StepInitializes(mode: Mode, k: nat, s: State, e: Event)
    requires Sized(k)
    ensures Step(mode, k, s, e).initialized <==> s.initialized || e.Init?
  {
  }

  /** The snapshot is the map at the last dump, and the zeroed map before the first. */
  lemma {:induction false} SnapshotIs(mode: Mode, k: nat, events: seq<Event>, j: int)
    requires Sized(k) && -1 <= j < |events| && (j >= 0 ==> DumpsAt(mode, k, events, j))
    requires forall m :: j < m < |events| ==> !DumpsAt(mode, k, events, m)
    ensures Run(mode, k, events).snapshot == Touched(mode, k, CallsOf(events[..j + 1]))
    decreases |events|
  {
    hide Run, CallsOf, Touched, DumpsAt;
    if events == [] {
      EmptyRun(mode, k);
    } else {
      var n := |events| - 1;
      assert events[..n + 1] == events;
      StepSnapshot(mode, k, events);
      if j == n {
        RunTouches(mode, k, events);
      } else {
        SameDumpsBefore(mode, k, events, n);
        forall m | j < m < n
          ensures !DumpsAt(mode, k, events[..n], m)
        {
          assert !DumpsAt(mode, k, events, m);
        }
        SnapshotIs(mode, k, events[..n], j);
        assert events[..n][..j + 1] == events[..j + 1];
      }
    }
  }

  lemma EmptyRun(mode: Mode, k: nat)
    requires Sized(k)
    ensures Run(mode, k, []) == START && Touched(mode, k, CallsOf([])) == []
  {
    assert LocsOf(k, []) == [];
  }

  /** A dump takes the map over as the snapshot, and nothing else changes that. */
  lemma StepSnapshot(mode: Mode, k: nat, events: seq<Event>)
    requires Sized(k) && events != []
    ensures var s, t := Run(mode, k, events[..|events| - 1]), Run(mode, k, events);
            t.snapshot == if DumpsAt(mode, k, events, |events| - 1) then t.edges else s.snapshot
  {
    assert events[..|events| - 1 + 1] == events;
    RunLast(mode, k, events);
  }

  /** `p < 10000 / n` without the rounding. */
  lemma Odds(p: nat, n: nat)
    requires n > 0
    ensures p < 10000 / n <==> (p + 1) * n <= 10000
  {
    var q := 10000 / n;
    assert q * n <= 10000 < (q + 1) * n;
    if p < q {
      ShiftedProduct(p + 1, q, n);
    } else {
      ShiftedProduct(q + 1, p + 1, n);
    }
  }

  lemma {:induction false} ShiftedProduct(a: nat, b: nat, n: nat)
    requires a <= b
    ensures a * n <= b * n
    decreases b - a
  {
    if a < b {
      ShiftedProduct(a, b - 1, n);
      assert b * n == (b - 1) * n + n;
    }
  }

  /**
   When the environment lets a point dump: with IMG_CREAT_FINJ always, with GEN_ALL_CS for multiples of 5 below 100,
   and otherwise for one over its id of the values of `rand`, and never for id 0.
   */
  lemma SaveImageIff(id: Word, r: Request)
    ensures SaveImage(id, r) <==>
            || r.imgCreate
            || (r.genAll && id < 100 && id % 5 == 0)
            || (!r.genAll && id > 0 && (r.rand % 10000 + 1) * id <= 10000)
  {
    if id > 0 {
      Odds(r.rand % 10000, id);
    }
  }

  /**
   Point `i` dumps exactly when the run was initialized before, FI_MODE asks for images, the map differs from that
   at the last dump before, `j`, or from the zeroed map if there was none, and the environment allows it. What it
   dumps is the map of the accesses so far, under the number of failure points before it.
   */
  lemma DumpsAtIff(mode: Mode, k: nat, events: seq<Event>, i: nat, j: int)
    requires Sized(k) && i < |events| && events[i].Point?
    requires -1 <= j < i && (j >= 0 ==> DumpsAt(mode, k, events, j))
    requires forall m :: j < m < i ==> !DumpsAt(mode, k, events, m)
    ensures var r, id := events[i].request, PointsOf(events[..i]) % 0x1_0000_0000;
            var now := Touched(mode, k, CallsOf(events[..i]));
            var dumps := Run(mode, k, events[..i]).dumps;
            && (DumpsAt(mode, k, events, i) <==>
                && (exists m :: 0 <= m < i && events[m].Init?)
                && r.mode.ImgGen?
                && Levels(mode, k, now) != Levels(mode, k, Touched(mode, k, CallsOf(events[..j + 1])))
                && SaveImage(id, r))
            && (DumpsAt(mode, k, events, i) ==> Run(mode, k, events[..i + 1]).dumps == dumps + [Dump(id, now)])
  {
    var s := Run(mode, k, events[..i]);
    var id: nat := PointsOf(events[..i]) % 0x1_0000_0000;
    StateBefore(mode, k, events, i);
    SnapshotBefore(mode, k, events, i, j);
    IdBefore(mode, k, events[..i]);
    PointDumps(mode, k, s, events[i].request, id);
    DumpsAtMeans(mode, k, events, i);
    hide *;
  }

  lemma DumpsAtMeans(mode: Mode, k: nat, events: seq<Event>, i: nat)
    requires Sized(k) && i < |events|
    ensures DumpsAt(mode, k, events, i) <==> Run(mode, k, events[..i + 1]).dumps != Run(mode, k, events[..i]).dumps
  {
  }

  /** What a failure point finds. */
  lemma StateBefore(mode: Mode, k: nat, events: seq<Event>, i: nat)
    requires Sized(k) && i < |events| && events[i].Point?
    ensures var s := Run(mode, k, events[..i]);
            && Run(mode, k, events[..i + 1]) == StepPoint(mode, k, s, events[i].request)
            && (s.initialized <==> exists m :: 0 <= m < i && events[m].Init?)
            && s.edges == Touched(mode, k, CallsOf(events[..i]))
  {
    var before := events[..i];
    assert events[..i + 1] == before + [events[i]];
    hide Run, CallsOf, Touched, PointsOf, Levels, StepPoint, StepCall;
    RunSnoc(mode, k, before, events[i]);
    InitializedIff(mode, k, before);
    assert forall m :: 0 <= m < i ==> before[m] == events[m];
    RunTouches(mode, k, before);
  }

  /** The id of a point is the number of points before it. */
  lemma IdBefore(mode: Mode, k: nat, before: seq<Event>)
    requires Sized(k)
    ensures (Run(mode, k, before).failureId + 1) % 0x1_0000_0000 == PointsOf(before) % 0x1_0000_0000
  {
    hide Run, PointsOf;
    FailureIds(mode, k, before);
    WrapNext(PointsOf(before));
  }

  lemma SnapshotBefore(mode: Mode, k: nat, events: seq<Event>, i: nat, j: int)
    requires Sized(k) && i < |events| && -1 <= j < i && (j >= 0 ==> DumpsAt(mode, k, events, j))
    requires forall m :: j < m < i ==> !DumpsAt(mode, k, events, m)
    ensures Run(mode, k, events[..i]).snapshot == Touched(mode, k, CallsOf(events[..j + 1]))
  {
    hide Run, CallsOf, Touched, DumpsAt;
    SameDumpsBefore(mode, k, events, i);
    forall m | j < m < i
      ensures !DumpsAt(mode, k, events[..i], m)
    {
      assert !DumpsAt(mode, k, events, m);
    }
    SnapshotIs(mode, k, events[..i], j);
    assert events[..i][..j + 1] == events[..j + 1];
  }

  lemma SameDumpsBefore(mode: Mode, k: nat, events: seq<Event>, i: nat)
    requires Sized(k) && i <= |events|
    ensures forall m: nat :: m < i ==> (DumpsAt(mode, k, events[..i], m) <==> DumpsAt(mode, k, events, m))
  {
    forall m: nat | m < i
      ensures DumpsAt(mode, k, events[..i], m) <==> DumpsAt(mode, k, events, m)
    {
      assert events[..i][..m] == events[..m] && events[..i][..m + 1] == events[..m + 1];
    }
  }

  lemma PointDumps(mode: Mode, k: nat, s: State, r: Request, id: Word)
    requires (s.failureId + 1) % 0x1_0000_0000 == id
    ensures var t := StepPoint(mode, k, s, r);
            && (t.dumps != s.dumps <==>
                && s.initialized && r.mode.ImgGen? && Levels(mode, k, s.edges) != Levels(mode, k, s.snapshot)
                && SaveImage(id, r))
            && (t.dumps != s.dumps ==> t.dumps == s.dumps + [Dump(id, s.edges)])
  {
    hide Levels, SaveImage;
  }

  /** Every dump is that of a failure point in IMG_GEN mode that comes after an `Init`, under that point's number. */
  lemma {:induction false} EveryDump(mode: Mode, k: nat, events: seq<Event>, d: Dump) returns (i: nat)
    requires Sized(k) && d in Run(mode, k, events).dumps
    ensures i < |events| && events[i].Point? && events[i].request.mode.ImgGen?
    ensures exists j :: 0 <= j < i && events[j].Init?
    ensures d.id == PointsOf(events[..i]) % 0x1_0000_0000
  {
    hide Run, StepCall, StepPoint, Levels, PointsOf, SaveImage;
    if events == [] {
      EmptyRun(mode, k);
      assert false;
    }
    var before, e := events[..|events| - 1], events[|events| - 1];
    RunLast(mode, k, events);
    assert forall j :: 0 <= j < |before| ==> before[j] == events[j];
    if d in Run(mode, k, before).dumps {
      i := EveryDump(mode, k, before, d);
      assert before[..i] == events[..i];
    } else {
      i := |before|;
      InitializedIff(mode, k, before);
      IdBefore(mode, k, before);
      NewDump(mode, k, Run(mode, k, before), e.request, d);
    }
  }

  lemma NewDump(mode: Mode, k: nat, s: State, r: Request, d: Dump)
    requires d in StepPoint(mode, k, s, r).dumps && d !in s.dumps
    ensures s.initialized && r.mode.ImgGen? && d.id == (s.failureId + 1) % 0x1_0000_0000
  {
  }

  /** How many of the 10000 values of `rand` save an image at a point: one over its id of them, rounded down. */
  lemma SaveImageOdds(id: Word, mode: FiMode)
    requires id > 0
    ensures |set p: nat | p < 10000 && SaveImage(id, Request(p, mode, false, false))| == 10000 / id
  {
    hide SaveImage;
    var q := SavingBelow(id, mode);
    UpToSize(q);
    assert (set p: nat | p < 10000 && SaveImage(id, Request(p, mode, false, false))) == UpTo(q);
  }

  lemma SavingBelow(id: Word, mode: FiMode) returns (q: nat)
    requires id > 0
    ensures q == 10000 / id && q <= 10000
    ensures forall p: nat :: p < 10000 ==> (SaveImage(id, Request(p, mode, false, false)) <==> p < q)
  {
    q := 10000 / id;
  }

  function UpTo(n: nat): (s: set<nat>)
    ensures forall p: nat :: p in s <==> p < n
  {
    if n == 0 then {} else UpTo(n - 1) + {n - 1}
  }

  lemma {:induction false} UpToSize(n: nat)
    ensures |UpTo(n)| == n
  {
    if n > 0 {
      UpToSize(n - 1);
    }
  }

  // ---------- The dumps are bounded by the growth of the map ----------

  function Sum(ls: seq<nat>): nat {
    if ls == [] then 0 else Sum(ls[..|ls| - 1]) + ls[|ls| - 1]
  }

  ghost predicate PointwiseLe(a: seq<nat>, b: seq<nat>) {
    |a| == |b| && forall i :: 0 <= i < |a| ==> a[i] <= b[i]
  }

  lemma {:induction false} SumMonotone(a: seq<nat>, b: seq<nat>)
    requires PointwiseLe(a, b)
    ensures Sum(a) <= Sum(b)
    ensures a != b ==> Sum(a) < Sum(b)
  {
    if a != [] {
      var n := |a| - 1;
      SumMonotone(a[..n], b[..n]);
      assert a == a[..n] + [a[n]] && b == b[..n] + [b[n]];
    }
  }

  lemma {:induction false} SumBounded(ls: seq<nat>, cap: nat)
    requires forall i :: 0 <= i < |ls| ==> ls[i] <= cap
    ensures Sum(ls) <= cap * |ls|
  {
    if ls != [] {
      var n := |ls| - 1;
      SumBounded(ls[..n], cap);
      assert cap * |ls| == cap * n + cap;
    }
  }

  /** The map only grows. */
  lemma LevelsGrow(mode: Mode, k: nat, edges: seq<nat>, more: seq<nat>)
    ensures PointwiseLe(Levels(mode, k, edges), Levels(mode, k, edges + more))
  {
    assert multiset(edges + more) == multiset(edges) + multiset(more);
  }

  function Mass(mode: Mode, k: nat, edges: seq<nat>): nat {
    Sum(Levels(mode, k, edges))
  }

  /** Dumps so far, and the growth they have used up. */
  ghost predicate Accounted(mode: Mode, k: nat, s: State) {
    && s.snapshot <= s.edges
    && |s.dumps| <= Mass(mode, k, s.snapshot)
    && (s.dumps == [] ==> s.snapshot == [])
    && (s.dumps != [] ==> s.dumps[|s.dumps| - 1].edges == s.snapshot)
    && (forall i :: 0 < i < |s.dumps| ==> Fresher(mode, k, s.dumps[i - 1], s.dumps[i]))
  }

  /** The later of two dumps sees a map that has grown. */
  ghost predicate Fresher(mode: Mode, k: nat, a: Dump, b: Dump) {
    && a.edges <= b.edges
    && PointwiseLe(Levels(mode, k, a.edges), Levels(mode, k, b.edges))
    && Levels(mode, k, a.edges) != Levels(mode, k, b.edges)
  }

  lemma PrefixGrows(mode: Mode, k: nat, a: seq<nat>, b: seq<nat>)
    requires a <= b
    ensures PointwiseLe(Levels(mode, k, a), Levels(mode, k, b))
    ensures Levels(mode, k, a) != Levels(mode, k, b) ==> Mass(mode, k, a) < Mass(mode, k, b)
  {
    assert b == a + b[|a|..];
    LevelsGrow(mode, k, a, b[|a|..]);
    SumMonotone(Levels(mode, k, a), Levels(mode, k, b));
  }

  lemma CallAccounted(mode: Mode, k: nat, s: State, a: Access)
    requires Sized(k) && Accounted(mode, k, s)
    ensures Accounted(mode, k, StepCall(mode, k, s, a))
  {
  }

  lemma PointAccounted(mode: Mode, k: nat, s: State, r: Request)
    requires Accounted(mode, k, s)
    ensures Accounted(mode, k, StepPoint(mode, k, s, r))
  {
    PrefixGrows(mode, k, s.snapshot, s.edges);
    var dumps := StepPoint(mode, k, s, r).dumps;
    if dumps != s.dumps && s.dumps != [] {
      assert Fresher(mode, k, s.dumps[|s.dumps| - 1], dumps[|s.dumps|]);
    }
  }

  lemma {:induction false} RunAccounted(mode: Mode, k: nat, events: seq<Event>)
    requires Sized(k)
    ensures Accounted(mode, k, Run(mode, k, events))
  {
    if events != [] {
      var s, e := Run(mode, k, events[..|events| - 1]), events[|events| - 1];
      RunAccounted(mode, k, events[..|events| - 1]);
      match e
      case Init =>
      case Call(a) => CallAccounted(mode, k, s, a);
      case Point(r) => PointAccounted(mode, k, s, r);
    }
  }

  /**
   However long a program runs, consecutive dumps see different maps, and the number of dumps is at
   most the cap times the number of elements: 255 per byte in path mode, 256 per register in baseline mode.
   */
  lemma DumpsBounded(mode: Mode, k: nat, events: seq<Event>)
    requires Sized(k)
    ensures var dumps := Run(mode, k, events).dumps;
            && |dumps| <= Cap(mode) * ElemCount(mode, k)
            && |dumps| <= (if mode.Path? then 255 * Pow2(k) else 256 * (Pow2(k) / 32))
            && forall i :: 0 < i < |dumps| ==>
                 Levels(mode, k, dumps[i - 1].edges) != Levels(mode, k, dumps[i].edges)
  {
    var s := Run(mode, k, events);
    RunAccounted(mode, k, events);
    SumBounded(Levels(mode, k, s.snapshot), Cap(mode));
    forall i | 0 < i < |s.dumps|
      ensures Levels(mode, k, s.dumps[i - 1].edges) != Levels(mode, k, s.dumps[i].edges)
    {
      assert Fresher(mode, k, s.dumps[i - 1], s.dumps[i]);
    }
  }
}
