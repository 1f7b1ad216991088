/** The memory of include/libpmfuzz.c: the coverage map, its last snapshot and the globals beside them. */
module Runtime {
  import opened Bits
  import opened ShiftRegister
  import opened PmMap
  import opened FailurePoints

  // ---------- What the bytes of a map mean ----------

  /** Element `i` of the map shows `count` touches. */
  predicate ShowsCount(mode: Mode, mem: seq<bv8>, i: nat, count: nat) {
    match mode
    case Path => i < |mem| && mem[i] as int == Min(count, COUNTER_CAP)
    case Baseline =>
      && REGISTER_SIZE * i + REGISTER_SIZE <= |mem|
      && Register(mem, REGISTER_SIZE * i, REGISTER_SIZE) == OneHot(8 * REGISTER_SIZE, count)
  }

  /** The map shows exactly how often each of its elements occurs in `edges`. */
  ghost predicate Represents(mode: Mode, k: nat, mem: seq<bv8>, edges: seq<nat>) {
    && |mem| == Pow2(k)
    && forall i :: 0 <= i < ElemCount(mode, k) ==> ShowsCount(mode, mem, i, Count(edges, i))
  }

  /** The bytes of a path-mode map: a saturating count each. */
  lemma BytesOfPath(k: nat, mem: seq<bv8>, edges: seq<nat>, i: nat)
    requires Represents(Path, k, mem, edges) && i < |mem|
    ensures mem[i] as int == if multiset(edges)[i] <= 255 then multiset(edges)[i] else 255
  {
    assert ShowsCount(Path, mem, i, Count(edges, i));
  }

  /** The bytes of a baseline-mode map: of the 256 bits of a register only the one that its count numbers is set. */
  lemma BytesOfBaseline(k: nat, mem: seq<bv8>, edges: seq<nat>, i: nat, b: nat)
    requires Represents(Baseline, k, mem, edges) && i < Pow2(k) / 32 && b < 256
    ensures 32 * i + b / 8 < |mem|
    ensures (mem[32 * i + b / 8] >> (b % 8)) & 1 == 1 <==>
            if b < 255 then multiset(edges)[i] == b + 1 else multiset(edges)[i] >= 256
  {
    assert ShowsCount(Baseline, mem, i, Count(edges, i));
    RegisterBit(mem, 32 * i, 32, b);
    MaskIs(mem[32 * i + b / 8], b % 8);
  }

  /** Two maps are the same bytes exactly when they show the same capped counts. */
  lemma SameBytesIffSameLevels(mode: Mode, k: nat, x: seq<bv8>, y: seq<bv8>, a: seq<nat>, b: seq<nat>)
    requires SizedFor(mode, k) && Represents(mode, k, x, a) && Represents(mode, k, y, b)
    ensures x == y <==> Levels(mode, k, a) == Levels(mode, k, b)
  {
    if x == y {
      forall i | 0 <= i < ElemCount(mode, k)
        ensures Levels(mode, k, a)[i] == Levels(mode, k, b)[i]
      {
        assert ShowsCount(mode, x, i, Count(a, i)) && ShowsCount(mode, y, i, Count(b, i));
        if mode.Baseline? && Levels(mode, k, a)[i] != Levels(mode, k, b)[i] {
          OneHotDistinct(8 * REGISTER_SIZE, Count(a, i), Count(b, i));
        }
      }
    }
    if Levels(mode, k, a) == Levels(mode, k, b) {
      forall j | 0 <= j < |x|
        ensures x[j] == y[j]
      {
        SameLevelsSameByte(mode, k, x, y, a, b, j);
      }
    }
  }

  lemma SameLevelsSameByte(mode: Mode, k: nat, x: seq<bv8>, y: seq<bv8>, a: seq<nat>, b: seq<nat>, j: nat)
    requires SizedFor(mode, k) && Represents(mode, k, x, a) && Represents(mode, k, y, b)
    requires Levels(mode, k, a) == Levels(mode, k, b) && j < Pow2(k)
    ensures x[j] == y[j]
  {
    var i := if mode.Path? then j else j / REGISTER_SIZE;
    RegisterCount(k);
    if mode.Baseline? {
      assert Pow2(5) == 32;
      Pow2Add(5, k - 5);
    }
    assert i < ElemCount(mode, k);
    assert Levels(mode, k, a)[i] == Levels(mode, k, b)[i];
    assert ShowsCount(mode, x, i, Count(a, i)) && ShowsCount(mode, y, i, Count(b, i));
    if mode.Path? {
      SameByteValue(x[j], y[j]);
    } else {
      assert OneHot(8 * REGISTER_SIZE, Count(a, i)) == OneHot(8 * REGISTER_SIZE, Count(b, i));
      SameRegisterSameBytes(x, y, REGISTER_SIZE * i, REGISTER_SIZE, j);
    }
  }

  lemma SameByteValue(x: bv8, y: bv8)
    requires x as int == y as int
    ensures x == y
  {
  }

  /** One more touch of a saturating byte. */
  function Bumped(x: bv8): bv8 {
    if x < 255 then x + 1 else x
  }

  lemma BumpedValue(x: bv8, count: nat)
    requires x as int == Min(count, COUNTER_CAP)
    ensures Bumped(x) as int == Min(count + 1, COUNTER_CAP)
  {
    ByteIncrement(x);
  }

  lemma ByteIncrement(x: bv8)
    ensures x as int <= 255
    ensures x < 255 <==> (x as int) < 255
    ensures x < 255 ==> (x + 1) as int == x as int + 1
  {
  }

  lemma CountSnoc(edges: seq<nat>, i: nat, j: nat)
    ensures Count(edges + [i], j) == Count(edges, j) + (if i == j then 1 else 0)
  {
  }

  /** One more touch of element `i`, and nothing else changed. */
  lemma TouchedOnce(mode: Mode, k: nat, x: seq<bv8>, y: seq<bv8>, edges: seq<nat>, i: nat)
    requires Represents(mode, k, x, edges) && |y| == |x| && i < ElemCount(mode, k)
    requires ShowsCount(mode, y, i, Count(edges, i) + 1)
    requires forall j :: 0 <= j < ElemCount(mode, k) && j != i ==> SameElement(mode, x, y, j)
    ensures Represents(mode, k, y, edges + [i])
  {
    forall j | 0 <= j < ElemCount(mode, k)
      ensures ShowsCount(mode, y, j, Count(edges + [i], j))
    {
      CountSnoc(edges, i, j);
      assert ShowsCount(mode, x, j, Count(edges, j));
      if j != i {
        assert SameElement(mode, x, y, j);
      }
    }
  }

  predicate SameElement(mode: Mode, x: seq<bv8>, y: seq<bv8>, i: nat) {
    match mode
    case Path => i < |x| && i < |y| && y[i] == x[i]
    case Baseline =>
      && REGISTER_SIZE * i + REGISTER_SIZE <= |x| == |y|
      && Register(y, REGISTER_SIZE * i, REGISTER_SIZE) == Register(x, REGISTER_SIZE * i, REGISTER_SIZE)
  }

  /** A push into one register leaves every other register as it was. */
  lemma OtherRegisters(before: seq<bv8>, after: seq<bv8>, i: nat, j: nat)
    requires Pushed(before, after, i * REGISTER_SIZE, REGISTER_SIZE, false) && i != j
    requires REGISTER_SIZE * j + REGISTER_SIZE <= |before|
    ensures SameElement(Baseline, before, after, j)
  {
    forall b: nat | b < 8 * REGISTER_SIZE
      ensures Register(after, REGISTER_SIZE * j, REGISTER_SIZE)[b]
              == Register(before, REGISTER_SIZE * j, REGISTER_SIZE)[b]
    {
      RegisterBit(before, REGISTER_SIZE * j, REGISTER_SIZE, b);
      RegisterBit(after, REGISTER_SIZE * j, REGISTER_SIZE, b);
    }
  }

  lemma CountedByte(k: nat, before: seq<bv8>, after: seq<bv8>, edges: seq<nat>, i: nat)
    requires Represents(Path, k, before, edges) && i < ElemCount(Path, k)
    requires after == before[i := Bumped(before[i])]
    ensures Represents(Path, k, after, edges + [i])
  {
    hide Bumped;
    assert ShowsCount(Path, before, i, Count(edges, i));
    BumpedValue(before[i], Count(edges, i));
    TouchedOnce(Path, k, before, after, edges, i);
  }

  lemma CountedPush(k: nat, before: seq<bv8>, after: seq<bv8>, edges: seq<nat>, i: nat)
    requires 12 <= k <= 31 && Represents(Baseline, k, before, edges) && i < ElemCount(Baseline, k)
    requires Pushed(before, after, i * REGISTER_SIZE, REGISTER_SIZE, false)
    ensures Represents(Baseline, k, after, edges + [i])
  {
    assert ShowsCount(Baseline, before, i, Count(edges, i));
    PushOneHot(8 * REGISTER_SIZE, Count(edges, i));
    forall j | 0 <= j < ElemCount(Baseline, k) && j != i
      ensures SameElement(Baseline, before, after, j)
    {
      assert ShowsCount(Baseline, before, j, Count(edges, j));
      OtherRegisters(before, after, i, j);
    }
    TouchedOnce(Baseline, k, before, after, edges, i);
  }

  /** In path mode every location an access passes is inside the map. */
  lemma LocsInMap(k: nat, a: Access)
    requires 8 <= k <= 31
    ensures AllBelow(Locs(k, a), Pow2(k))
  {
    LocsSplit(k, a);
    HalfModulusSound(k);
  }

  lemma OneLoc(mode: Mode, k: nat, prev: nat, a: Access)
    requires Sized(k) && (a.Ro? || a.Wo?)
    ensures var e := Elem(mode, k, Locs(k, a)[0]);
            && EdgeTrace(prev, Elems(mode, k, Locs(k, a))) == [Xor(e, prev)]
            && PrevAfter(prev, Elems(mode, k, Locs(k, a))) == e / 2
  {
    var elems := Elems(mode, k, Locs(k, a));
    assert elems[1..] == [];
  }

  lemma TwoLocs(mode: Mode, k: nat, prev: nat, a: Access)
    requires Sized(k) && a.Rw?
    ensures var e, f := Elem(mode, k, Locs(k, a)[0]), Elem(mode, k, Locs(k, a)[1]);
            && EdgeTrace(prev, Elems(mode, k, Locs(k, a))) == [Xor(e, prev), Xor(f, e / 2)]
            && PrevAfter(prev, Elems(mode, k, Locs(k, a))) == f / 2
  {
    var elems := Elems(mode, k, Locs(k, a));
    assert elems[1..] == [elems[1]];
    assert elems[1..][1..] == [];
  }

  /** Two updates in a row are the step of a read-write access. */
  lemma TwoUpdates(mode: Mode, k: nat, s: State, t: State, u: State, a: Access)
    requires Sized(k) && a.Rw?
    requires var e := Elem(mode, k, Locs(k, a)[0]);
             t == s.(edges := s.edges + [Xor(e, s.prev)], prev := e / 2)
    requires var f := Elem(mode, k, Locs(k, a)[1]);
             u == t.(edges := t.edges + [Xor(f, t.prev)], prev := f / 2)
    ensures u == StepCall(mode, k, s, a)
  {
    TwoLocs(mode, k, s.prev, a);
  }

  lemma ZeroMap(mode: Mode, k: nat, mem: seq<bv8>)
    requires SizedFor(mode, k) && |mem| == Pow2(k) && forall i :: 0 <= i < |mem| ==> mem[i] == 0
    ensures Represents(mode, k, mem, [])
  {
    forall i | 0 <= i < ElemCount(mode, k)
      ensures ShowsCount(mode, mem, i, 0)
    {
      if mode.Baseline? {
        forall b: nat | b < 8 * REGISTER_SIZE
          ensures Register(mem, REGISTER_SIZE * i, REGISTER_SIZE)[b] == OneHot(8 * REGISTER_SIZE, 0)[b]
        {
          RegisterBit(mem, REGISTER_SIZE * i, REGISTER_SIZE, b);
        }
      }
    }
  }

  method BumpByte(a: array<bv8>, i: nat)
    requires i < a.Length
    modifies a
    ensures a[..] == old(a[..])[i := Bumped(old(a[i]))]
  {
    if a[i] < 255 {
      a[i] := a[i] + 1;
    }
  }

  class PmRuntime {
    const mode: Mode
    const k: nat
    var area: array<bv8>
    var lastArea: array<bv8>
    var prevLoc: nat
    var sraElemSize: bv32
    var failureId: Word
    var initComplete: bool
    /** FAILURE_LIST: the ids that dumped. */
    var failureList: seq<Word>
    /** The run so far. */
    ghost var state: State

    ghost predicate Valid()
      reads this, area, lastArea
    {
      && SizedFor(mode, k)
      && area != lastArea
      && Represents(mode, k, area[..], state.edges)
      && Represents(mode, k, lastArea[..], state.snapshot)
      && prevLoc == state.prev < Pow2(IndexBits(mode, k) - 1)
      && (sraElemSize == 0 || sraElemSize == 32)
      && failureId == state.failureId
      && initComplete == state.initialized
      && |failureList| == |state.dumps|
      && forall i :: 0 <= i < |failureList| ==> failureList[i] == state.dumps[i].id
    }

    constructor (mode: Mode, k: nat)
      requires SizedFor(mode, k)
      ensures Valid() && fresh(area) && fresh(lastArea) && state == START
      ensures this.mode == mode && this.k == k
    {
      this.mode := mode;
      this.k := k;
      area := new bv8[Pow2(k)](_ => 0);
      lastArea := new bv8[Pow2(k)](_ => 0);
      prevLoc := 0;
      sraElemSize := 0;
      failureId := 0xFFFF_FFFF;
      initComplete := false;
      failureList := [];
      state := START;
      new;
      ZeroMap(mode, k, area[..]);
      ZeroMap(mode, k, lastArea[..]);
    }

    /** `update_loc`: mixes the element with half of the previous one and counts the index that comes out. */
    method UpdateLoc(loc: nat)
      requires Valid()
      requires mode.Path? ==> loc < Pow2(k)
      modifies this`prevLoc, this`sraElemSize, this`state, area
      ensures Valid()
      ensures var elem := Elem(mode, k, loc);
              state == old(state).(edges := old(state).edges + [Xor(elem, old(prevLoc))], prev := elem / 2)
      ensures var cur := Xor(Elem(mode, k, loc), old(prevLoc));
              forall i :: 0 <= i < area.Length && (if mode.Path? then i else i / REGISTER_SIZE) != cur ==>
                area[i] == old(area[i])
    {
      ElemInRange(mode, k, loc);
      XorBound(Elem(mode, k, loc), prevLoc, IndexBits(mode, k));
      if mode.Path? {
        TouchByte(loc);
      } else {
        TouchRegister(loc);
      }
    }

    /** The path branch: a saturating byte. */
    method TouchByte(loc: nat)
      requires Valid() && mode.Path? && loc < Pow2(k)
      requires Xor(loc, prevLoc) < ElemCount(mode, k) && loc / 2 < Pow2(IndexBits(mode, k) - 1)
      modifies this`prevLoc, this`state, area
      ensures Valid()
      ensures state == old(state).(edges := old(state).edges + [Xor(loc, old(prevLoc))], prev := loc / 2)
      ensures forall i :: 0 <= i < area.Length && i != Xor(loc, old(prevLoc)) ==> area[i] == old(area[i])
    {
      ghost var before := area[..];
      var curLoc := Xor(loc, prevLoc);
      prevLoc := loc / 2;
      BumpByte(area, curLoc);
      CountedByte(k, before, area[..], state.edges, curLoc);
      state := state.(edges := state.edges + [curLoc], prev := prevLoc);
    }

    /** The baseline branch: a 32-byte shift register, whose size is fixed at the first touch. */
    method TouchRegister(loc: nat)
      requires Valid() && mode.Baseline?
      requires Xor(Elem(mode, k, loc), prevLoc) < ElemCount(mode, k)
      requires Elem(mode, k, loc) / 2 < Pow2(IndexBits(mode, k) - 1)
      modifies this`prevLoc, this`sraElemSize, this`state, area
      ensures Valid()
      ensures var elem := Elem(mode, k, loc);
              state == old(state).(edges := old(state).edges + [Xor(elem, old(prevLoc))], prev := elem / 2)
      ensures var cur := Xor(Elem(mode, k, loc), old(prevLoc));
              forall i :: 0 <= i < area.Length && i / REGISTER_SIZE != cur ==> area[i] == old(area[i])
    {
      ghost var before := area[..];
      if sraElemSize == 0 {
        sraElemSize := GetNextPow2(31);
        assert IsPowerOfTwo(32);
      }
      var elem := Elem(mode, k, loc);
      var curLoc := Xor(elem, prevLoc);
      prevLoc := elem / 2;
      assert sraElemSize as nat == REGISTER_SIZE;
      PushRegister(sraElemSize as nat, curLoc);
      CountedPush(k, before, area[..], state.edges, curLoc);
      state := state.(edges := state.edges + [curLoc], prev := prevLoc);
    }

    method PushRegister(elemSize: nat, loc: nat)
      requires 0 < elemSize && 8 * elemSize <= 0x7FFF_FFFF && loc < area.Length / elemSize
      modifies area
      ensures Pushed(old(area[..]), area[..], loc * elemSize, elemSize, false)
    {
      hide Pushed, PushedSeen, StartsInside;
      WholePush(elemSize);
      var inside := SraPushBack(area, elemSize, loc, 0);
    }

    method Ro(rand: Word)
      requires Valid()
      modifies this`prevLoc, this`sraElemSize, this`state, area
      ensures Valid() && state == StepCall(mode, k, old(state), Access.Ro(rand))
      ensures mode.Path? ==> area[Pow2(k - 1)..] == old(area[Pow2(k - 1)..])
    {
      hide Xor, ShowsCount, Rem, HalfModulus;
      LocsInMap(k, Access.Ro(rand));
      OneLoc(mode, k, prevLoc, Access.Ro(rand));
      if mode.Path? {
        ReadsLowWritesHigh(k, prevLoc, Access.Ro(rand));
      }
      var loc := Rem(rand, Pow2(k - 1));
      UpdateLoc(loc);
    }

    method Wo(rand: Word)
      requires Valid()
      modifies this`prevLoc, this`sraElemSize, this`state, area
      ensures Valid() && state == StepCall(mode, k, old(state), Access.Wo(rand))
      ensures mode.Path? ==> area[..Pow2(k - 1)] == old(area[..Pow2(k - 1)])
    {
      hide Xor, ShowsCount, Rem, HalfModulus;
      LocsInMap(k, Access.Wo(rand));
      OneLoc(mode, k, prevLoc, Access.Wo(rand));
      if mode.Path? {
        ReadsLowWritesHigh(k, prevLoc, Access.Wo(rand));
      }
      var loc := Rem(rand, HalfModulus(k));
      loc := (loc + Pow2(k - 1)) % 0x1_0000_0000;
      UpdateLoc(loc);
    }

    method Rw(rand: Word)
      requires Valid()
      modifies this`prevLoc, this`sraElemSize, this`state, area
      ensures Valid() && state == StepCall(mode, k, old(state), Access.Rw(rand))
    {
      hide Xor, Represents, Elem, Rem, HalfModulus, Pow2;
      ghost var locs := Locs(k, Access.Rw(rand));
      assert locs[0] < Pow2(k) && locs[1] < Pow2(k) by {
        LocsInMap(k, Access.Rw(rand));
      }
      ghost var start := state;
      var loc := Rem(rand, HalfModulus(k));
      UpdateLoc(loc);
      ghost var middle := state;
      loc := (loc + Pow2(k - 1)) % 0x1_0000_0000;
      UpdateLoc(loc);
      assert state == StepCall(mode, k, start, Access.Rw(rand)) by {
        TwoUpdates(mode, k, start, middle, state, Access.Rw(rand));
      }
    }

    /** The memcmp of the map and its snapshot. */
    method MapChanged() returns (diff: bool)
      requires Valid()
      ensures diff <==> Levels(mode, k, state.edges) != Levels(mode, k, state.snapshot)
      ensures diff <==> area[..] != lastArea[..]
    {
      SameBytesIffSameLevels(mode, k, area[..], lastArea[..], state.edges, state.snapshot);
      var i := 0;
      while i < area.Length && area[i] == lastArea[i]
        invariant 0 <= i <= area.Length
        invariant forall j :: 0 <= j < i ==> area[j] == lastArea[j]
      {
        i := i + 1;
      }
      diff := i < area.Length;
      assert diff ==> area[..][i] != lastArea[..][i];
      assert !diff ==> area[..] == lastArea[..];
    }

    /** The memcpy of the map over its snapshot. */
    method TakeSnapshot()
      requires Valid()
      modifies lastArea
      ensures lastArea[..] == area[..]
    {
      var i := 0;
      while i < area.Length
        invariant 0 <= i <= area.Length
        invariant area[..] == old(area[..])
        invariant forall j :: 0 <= j < i ==> lastArea[j] == area[j]
      {
        lastArea[i] := area[i];
        i := i + 1;
      }
    }

    method PmfuzzInit()
      requires Valid()
      modifies this`initComplete, this`state
      ensures Valid() && state == Step(mode, k, old(state), Init)
    {
      initComplete := true;
      state := state.(initialized := true);
    }

    /** `pmfuzz_inject_failure` with FI_MODE unset or IMG_GEN; tells whether an image was dumped. */
    method InjectFailure(r: Request) returns (inject: bool)
      requires Valid()
      modifies this`failureId, this`failureList, this`state, lastArea
      ensures Valid() && state == StepPoint(mode, k, old(state), r)
      ensures inject <==>
                old(initComplete) && r.mode.ImgGen? && old(area[..] != lastArea[..]) && SaveImage(failureId, r)
      ensures failureId == (old(failureId) + 1) % 0x1_0000_0000
      ensures failureList == old(failureList) + if inject then [failureId] else []
      ensures lastArea[..] == if inject then area[..] else old(lastArea[..])
    {
      inject := false;
      ghost var start := state;
      failureId := (failureId + 1) % 0x1_0000_0000;
      state := state.(failureId := failureId);
      if !initComplete || r.mode.NoInjection? {
        return;
      }
      var diff := MapChanged();
      var prob := r.rand % 10000;
      var divideFactor := if failureId == 0 then 1 else failureId;
      var saveImg := prob < 10000 / divideFactor;
      if failureId == 0 {
        saveImg := false;
      }
      if r.genAll {
        saveImg := failureId < 100 && failureId % 5 == 0;
      }
      if r.imgCreate {
        saveImg := true;
      }
      if diff && saveImg {
        TakeSnapshot();
        inject := true;
        failureList := failureList + [failureId];
        state := state.(snapshot := state.edges, dumps := state.dumps + [Dump(failureId, state.edges)]);
      }
    }

    /** A whole program, from a zeroed map. */
    method Execute(events: seq<Event>)
      requires Valid() && state == START
      modifies this`prevLoc, this`sraElemSize, this`state, this`failureId, this`initComplete, this`failureList
      modifies area, lastArea
      ensures Valid() && state == FailurePoints.Run(mode, k, events)
      ensures Represents(mode, k, area[..], Touched(mode, k, CallsOf(events)))
      ensures |failureList| <= Cap(mode) * ElemCount(mode, k)
      ensures var dumps := FailurePoints.Run(mode, k, events).dumps;
              failureList == seq(|dumps|, i requires 0 <= i < |dumps| => dumps[i].id)
    {
      var i := 0;
      while i < |events|
        invariant 0 <= i <= |events|
        invariant Valid() && state == FailurePoints.Run(mode, k, events[..i])
      {
        assert events[..i + 1][..i] == events[..i];
        match events[i] {
          case Init => PmfuzzInit();
          case Call(Ro(rand)) => Ro(rand);
          case Call(Wo(rand)) => Wo(rand);
          case Call(Rw(rand)) => Rw(rand);
          case Point(r) => var inject := InjectFailure(r);
        }
        i := i + 1;
      }
      assert events[..i] == events;
      RunTouches(mode, k, events);
      DumpsBounded(mode, k, events);
    }
  }
}
