/**
 The coverage map of include/libpmfuzz.c as a run of accesses and failure points, on values.
 A map of 2^k bytes is either one saturating byte per element (path mode) or one 32-byte
 shift register per element (baseline mode).
 */
module PmMap {
  import opened Bits

  type Word = n: nat | n < 0x1_0000_0000

  /** COUNTER_CAP. */
  const COUNTER_CAP := 255
  /** Bytes of one shift register: COUNTER_CAP / 8 rounded up to a power of two. */
  const REGISTER_SIZE := 32

  datatype Mode = Path | Baseline
  datatype Access = Ro(rand: Word) | Wo(rand: Word) | Rw(rand: Word)

  /** Map sizes that are powers of two, fit 32 bits, and leave `rand % (size / 2)` defined. */
  predicate Sized(k: nat) {
    1 <= k <= 31
  }

  function Sub32(a: Word, b: Word): Word {
    (a as int - b as int) % 0x1_0000_0000
  }

  /** `size / 2 - 97` in 32-bit arithmetic. */
  function HalfModulus(k: nat): (m: Word)
    requires Sized(k)
    ensures m > 0
  {
    MapSizes(k - 1);
    Sub32(Pow2(k - 1), 97)
  }

  /** Elements of the map: bytes, or registers. */
  function ElemCount(mode: Mode, k: nat): nat {
    match mode
    case Path => Pow2(k)
    case Baseline => Pow2(k) / REGISTER_SIZE
  }

  lemma RegisterCount(k: nat)
    ensures Pow2(k) / REGISTER_SIZE == if k >= 5 then Pow2(k - 5) else 0
  {
    if k >= 5 {
      assert Pow2(5) == 32;
      Pow2Add(5, k - 5);
    } else {
      Pow2Monotone(k, 4);
    }
  }

  /** `size / sra_elem_size - 97` in 32-bit arithmetic. */
  function RegisterModulus(k: nat): (m: Word)
    requires Sized(k)
    ensures m > 0
  {
    RegisterCount(k);
    MapSizes(if k >= 5 then k - 5 else 0);
    Sub32(Pow2(k) / REGISTER_SIZE, 97)
  }

  /** The locations one access hands to `update_loc`: reads below the middle of the map, writes above it. */
  function Locs(k: nat, a: Access): seq<nat>
    requires Sized(k)
  {
    var half := Pow2(k - 1);
    match a
    case Ro(r) => [Rem(r, half)]
    case Wo(r) => [(Rem(r, HalfModulus(k)) + half) % 0x1_0000_0000]
    case Rw(r) => [Rem(r, HalfModulus(k)), (Rem(r, HalfModulus(k)) + half) % 0x1_0000_0000]
  }

  /** The element `update_loc` selects before mixing in the previous one. */
  function Elem(mode: Mode, k: nat, loc: nat): nat
    requires Sized(k)
  {
    match mode
    case Path => loc
    case Baseline => Rem(loc, RegisterModulus(k))
  }

  function Elems(mode: Mode, k: nat, locs: seq<nat>): (es: seq<nat>)
    requires Sized(k)
    ensures |es| == |locs|
  {
    seq(|locs|, i requires 0 <= i < |locs| => Elem(mode, k, locs[i]))
  }

  // ---------- Edges: each element mixed with half of the one before ----------

  /** The indices touched when `elems` are visited in order after `prev`. */
  function EdgeTrace(prev: nat, elems: seq<nat>): (edges: seq<nat>)
    ensures |edges| == |elems|
    decreases |elems|
  {
    if elems == [] then []
    else [Xor(elems[0], prev)] + EdgeTrace(elems[0] / 2, elems[1..])
  }

  function PrevAfter(prev: nat, elems: seq<nat>): nat {
    if elems == [] then prev else elems[|elems| - 1] / 2
  }

  /** The visited elements read back from the touched indices. */
  function Decode(prev: nat, edges: seq<nat>): (elems: seq<nat>)
    ensures |elems| == |edges|
    decreases |edges|
  {
    if edges == [] then []
    else
      var e := Xor(edges[0], prev);
      [e] + Decode(e / 2, edges[1..])
  }

  lemma {:induction false} EdgeTraceAppend(prev: nat, a: seq<nat>, b: seq<nat>)
    ensures EdgeTrace(prev, a + b) == EdgeTrace(prev, a) + EdgeTrace(PrevAfter(prev, a), b)
    decreases |a|
  {
    if a == [] {
      assert a + b == b;
    } else {
      assert (a + b)[1..] == a[1..] + b;
      EdgeTraceAppend(a[0] / 2, a[1..], b);
    }
  }

  /** The edge encoding loses nothing: decoding undoes it. */
  lemma {:induction false} DecodeEncode(prev: nat, elems: seq<nat>)
    ensures Decode(prev, EdgeTrace(prev, elems)) == elems
    decreases |elems|
  {
    if elems != [] {
      XorCancel(elems[0], prev);
      DecodeEncode(elems[0] / 2, elems[1..]);
    }
  }

  /** Every sequence of indices is the encoding of exactly one sequence of elements. */
  lemma {:induction false} EncodeDecode(prev: nat, edges: seq<nat>)
    ensures EdgeTrace(prev, Decode(prev, edges)) == edges
    decreases |edges|
  {
    if edges != [] {
      XorCancel(edges[0], prev);
      EncodeDecode(Xor(edges[0], prev) / 2, edges[1..]);
    }
  }

  // ---------- Where the indices fall ----------

  /** The map has 2^IndexBits elements. */
  function IndexBits(mode: Mode, k: nat): nat {
    match mode
    case Path => k
    case Baseline => if k >= 5 then k - 5 else 0
  }

  /** The sizes for which the run-time's index arithmetic is sound. */
  predicate SizedFor(mode: Mode, k: nat) {
    match mode
    case Path => 8 <= k <= 31
    case Baseline => 12 <= k <= 31
  }

  lemma HalfModulusSound(k: nat)
    requires 8 <= k <= 31
    ensures HalfModulus(k) == Pow2(k - 1) - 97 && Pow2(k - 1) >= 128 && 2 * Pow2(k - 1) == Pow2(k)
  {
    MapSizes(k - 1);
  }

  lemma RegisterModulusSound(k: nat)
    requires 12 <= k <= 31
    ensures RegisterModulus(k) == Pow2(k - 5) - 97 && Pow2(k - 5) >= 128
  {
    RegisterCount(k);
    MapSizes(k - 5);
  }

  /** In path mode a read location is in the lower half of the map and a write location in the upper half. */
  lemma LocsSplit(k: nat, a: Access)
    requires 8 <= k <= 31
    ensures var half := Pow2(k - 1); var locs := Locs(k, a);
            match a
            case Ro(_) => |locs| == 1 && locs[0] < half
            case Wo(_) => |locs| == 1 && half <= locs[0] < 2 * half
            case Rw(_) => |locs| == 2 && locs[0] < half && half <= locs[1] < 2 * half
  {
    match a
    case Ro(_) =>
    case Wo(r) => WriteLocs(k, r);
    case Rw(r) => WriteLocs(k, r);
  }

  /** A write location does not wrap around. */
  lemma WriteLocs(k: nat, r: Word)
    requires 8 <= k <= 31
    ensures var half, m := Pow2(k - 1), Rem(r, HalfModulus(k));
            m < HalfModulus(k) < half && (m + half) % 0x1_0000_0000 == m + half < 2 * half
  {
    HalfModulusSound(k);
    MapSizes(k);
    SmallWord(Rem(r, HalfModulus(k)) + Pow2(k - 1));
  }

  lemma SmallWord(n: nat)
    ensures n < 0x1_0000_0000 ==> n % 0x1_0000_0000 == n
  {
  }

  /** An element of a sound map, and the one before it halved, give an index inside the map. */
  lemma ElemInRange(mode: Mode, k: nat, loc: nat)
    requires SizedFor(mode, k)
    requires mode.Path? ==> loc < Pow2(k)
    ensures Elem(mode, k, loc) < Pow2(IndexBits(mode, k)) == ElemCount(mode, k)
    ensures Elem(mode, k, loc) / 2 < Pow2(IndexBits(mode, k) - 1)
  {
    if mode.Baseline? {
      RegisterModulusSound(k);
      RegisterCount(k);
    }
  }

  ghost predicate AllBelow(s: seq<nat>, bound: nat) {
    forall i :: 0 <= i < |s| ==> s[i] < bound
  }

  lemma {:induction false} EdgesBelow(prev: nat, elems: seq<nat>, m: nat)
    requires m > 0 && AllBelow(elems, Pow2(m)) && prev < Pow2(m - 1)
    ensures AllBelow(EdgeTrace(prev, elems), Pow2(m)) && PrevAfter(prev, elems) < Pow2(m - 1)
    decreases |elems|
  {
    if elems != [] {
      XorBound(elems[0], prev, m);
      EdgesBelow(elems[0] / 2, elems[1..], m);
    }
  }

  function LocsOf(k: nat, calls: seq<Access>): seq<nat>
    requires Sized(k)
  {
    if calls == [] then [] else LocsOf(k, calls[..|calls| - 1]) + Locs(k, calls[|calls| - 1])
  }

  lemma {:induction false} LocsBelow(k: nat, calls: seq<Access>)
    requires 8 <= k <= 31
    ensures AllBelow(LocsOf(k, calls), Pow2(k))
  {
    if calls != [] {
      LocsBelow(k, calls[..|calls| - 1]);
      LocsSplit(k, calls[|calls| - 1]);
      HalfModulusSound(k);
    }
  }

  /** Every index a program touches, from a zeroed map. */
  function Touched(mode: Mode, k: nat, calls: seq<Access>): seq<nat>
    requires Sized(k)
  {
    EdgeTrace(0, Elems(mode, k, LocsOf(k, calls)))
  }

  lemma TouchedInRange(mode: Mode, k: nat, calls: seq<Access>)
    requires SizedFor(mode, k)
    ensures AllBelow(Touched(mode, k, calls), ElemCount(mode, k))
  {
    var locs := LocsOf(k, calls);
    LocsBelow(k, calls);
    forall i | 0 <= i < |locs|
      ensures Elem(mode, k, locs[i]) < Pow2(IndexBits(mode, k))
    {
      ElemInRange(mode, k, locs[i]);
    }
    EdgesBelow(0, Elems(mode, k, locs), IndexBits(mode, k));
    ElemInRange(mode, k, 0);
  }

  // ---------- Which element an access touches ----------

  /** In any run each index is its element, mixed digit by digit with half of the element before it. */
  lemma {:induction false} TouchedDigits(prev: nat, elems: seq<nat>, j: nat, i: nat)
    requires j < |elems|
    ensures Digit(EdgeTrace(prev, elems)[j], i) <==>
            Digit(elems[j], i) != (if j == 0 then Digit(prev, i) else Digit(elems[j - 1], i + 1))
    decreases |elems|
  {
    if j == 0 {
      XorDigits(elems[0], prev, i);
    } else {
      TouchedDigits(elems[0] / 2, elems[1..], j - 1, i);
      assert Digit(elems[0], i + 1) == Digit(elems[0] / 2, i);
    }
  }

  /** The sizes in the source's terms: a map of `2 * half` bytes, and of `regs` registers. */
  ghost predicate HasSize(mode: Mode, k: nat, half: nat, regs: nat) {
    SizedFor(mode, k) && 2 * half == Pow2(k) && (mode.Baseline? ==> 32 * regs == Pow2(k))
  }

  lemma SafeModuli(mode: Mode, k: nat, half: nat, regs: nat)
    requires HasSize(mode, k, half, regs)
    ensures Pow2(k - 1) == half > 97 && HalfModulus(k) == half - 97
    ensures mode.Baseline? ==> regs > 97 && RegisterModulus(k) == regs - 97
  {
    HalfModulusSound(k);
    if mode.Baseline? {
      RegisterModulusSound(k);
      RegisterCount(k);
    }
  }

  lemma ReadRemainder(k: nat, half: nat, r: Word)
    requires Sized(k) && Pow2(k - 1) == half > 0
    ensures Rem(r, Pow2(k - 1)) == r % half
  {
    RemIsRemainder(r, half);
    hide Pow2, Rem;
  }

  lemma WriteRemainder(k: nat, m: nat, r: Word)
    requires Sized(k) && HalfModulus(k) == m > 0
    ensures Rem(r, HalfModulus(k)) == r % m
  {
    RemIsRemainder(r, m);
    hide Pow2, Rem, HalfModulus;
  }

  /** The locations an access passes to `update_loc`. */
  lemma LocationsAre(mode: Mode, k: nat, half: nat, regs: nat, a: Access)
    requires HasSize(mode, k, half, regs)
    ensures half > 97
    ensures match a
            case Ro(r) => Locs(k, a) == [r % half]
            case Wo(r) => Locs(k, a) == [r % (half - 97) + half]
            case Rw(r) => Locs(k, a) == [r % (half - 97), r % (half - 97) + half]
  {
    hide Pow2, Rem, HalfModulus, RegisterModulus, Locs;
    SafeModuli(mode, k, half, regs);
    ReadRemainder(k, half, a.rand);
    WriteRemainder(k, half - 97, a.rand);
    LocsFrom(k, half, a, a.rand % half, a.rand % (half - 97));
  }

  lemma LocsFrom(k: nat, half: nat, a: Access, x: nat, y: nat)
    requires 8 <= k <= 31 && Pow2(k - 1) == half
    requires x == Rem(a.rand, Pow2(k - 1)) && y == Rem(a.rand, HalfModulus(k))
    ensures match a
            case Ro(_) => Locs(k, a) == [x]
            case Wo(_) => Locs(k, a) == [y + half]
            case Rw(_) => Locs(k, a) == [y, y + half]
  {
    WriteLocs(k, a.rand);
    hide Pow2, Rem, HalfModulus;
  }

  /** The element of a location before it is mixed. */
  lemma ElementIs(mode: Mode, k: nat, half: nat, regs: nat, loc: nat)
    requires HasSize(mode, k, half, regs)
    ensures mode.Path? || regs > 97
    ensures Elem(mode, k, loc) == if mode.Path? then loc else loc % (regs - 97)
  {
    SafeModuli(mode, k, half, regs);
    RemIsRemainder(loc, RegisterModulus(k));
    hide Pow2, Rem, HalfModulus, RegisterModulus, HasSize;
  }

  /** The index that a program's first access touches, when that is a read or a write. */
  lemma FirstIndex(mode: Mode, k: nat, half: nat, regs: nat, a: Access)
    requires HasSize(mode, k, half, regs) && !a.Rw?
    ensures half > 97 && (mode.Path? || regs > 97)
    ensures var loc := if a.Ro? then a.rand % half else a.rand % (half - 97) + half;
            Touched(mode, k, [a]) == [if mode.Path? then loc else loc % (regs - 97)]
  {
    LocationsAre(mode, k, half, regs, a);
    hide Pow2, Locs, Elem, Touched, HasSize;
    ElementIs(mode, k, half, regs, Locs(k, a)[0]);
    OneCall(mode, k, a, Locs(k, a)[0]);
  }

  /** The two indices of a first read-write: the read's, and the write's half a map above it, mixed. */
  lemma FirstIndices(mode: Mode, k: nat, half: nat, regs: nat, r: Word)
    requires HasSize(mode, k, half, regs)
    ensures half > 97 && (mode.Path? || regs > 97)
    ensures var loc := r % (half - 97);
            Touched(mode, k, [Rw(r)]) ==
            if mode.Path? then [loc, Xor(loc + half, loc / 2)]
            else [loc % (regs - 97), Xor((loc + half) % (regs - 97), loc % (regs - 97) / 2)]
  {
    LocationsAre(mode, k, half, regs, Rw(r));
    var loc := Locs(k, Rw(r))[0];
    ElementIs(mode, k, half, regs, loc);
    ElementIs(mode, k, half, regs, loc + half);
    TwoTouched(mode, k, Rw(r), loc, loc + half);
    hide Pow2, Locs, Elem, Xor, HasSize, Touched;
  }

  lemma TwoTouched(mode: Mode, k: nat, a: Access, x: nat, y: nat)
    requires Sized(k) && Locs(k, a) == [x, y]
    ensures Touched(mode, k, [a]) == [Elem(mode, k, x), Xor(Elem(mode, k, y), Elem(mode, k, x) / 2)]
  {
    assert [a][..0] == [];
    assert LocsOf(k, []) == [] && LocsOf(k, [a]) == [] + [x, y] == [x, y];
    hide Locs, Elem, Xor;
    XorZero(Elem(mode, k, x));
    TwoEdges(Elems(mode, k, [x, y]));
  }

  lemma TwoEdges(elems: seq<nat>)
    requires |elems| == 2
    ensures EdgeTrace(0, elems) == [Xor(elems[0], 0), Xor(elems[1], elems[0] / 2)]
  {
    assert elems[1..] == [elems[1]];
    assert elems[1..][1..] == [];
  }

  /** A run of one access that touches one location. */
  lemma OneCall(mode: Mode, k: nat, a: Access, loc: nat)
    requires Sized(k) && Locs(k, a) == [loc]
    ensures Touched(mode, k, [a]) == [Elem(mode, k, loc)]
  {
    assert [a][..0] == [];
    assert LocsOf(k, []) == [];
    assert LocsOf(k, [a]) == [] + Locs(k, a) == [loc];
    assert Elems(mode, k, [loc]) == [Elem(mode, k, loc)];
    XorZero(Elem(mode, k, loc));
  }

  lemma SmallPathMapOverruns(k: nat) returns (a: Access)
    requires 1 <= k < 8
    ensures !AllBelow(Touched(Path, k, [a]), Pow2(k))
  {
    MapSizes(k);
    MapSizes(k - 1);
    a := Wo(Pow2(k));
    var loc := Pow2(k) + Pow2(k - 1);
    assert HalfModulus(k) == 0x1_0000_0000 + Pow2(k - 1) - 97;
    assert Locs(k, a) == [loc];
    OneCall(Path, k, a, loc);
    assert Touched(Path, k, [a])[0] == loc;
  }

  lemma RegistersFewerThanReads(k: nat)
    requires 1 <= k < 12
    ensures Pow2(k) / REGISTER_SIZE < Pow2(k - 1)
    ensures RegisterModulus(k) > Pow2(k) / REGISTER_SIZE
  {
    MapSizes(k);
    RegisterCount(k);
    MapSizes(if k >= 5 then k - 5 else 0);
    if k >= 5 {
      Pow2Monotone(k - 5, k - 2);
      assert Pow2(k - 1) == 2 * Pow2(k - 2);
    }
  }

  lemma SmallBaselineMapOverruns(k: nat) returns (a: Access)
    requires 1 <= k < 12
    ensures !AllBelow(Touched(Baseline, k, [a]), Pow2(k) / REGISTER_SIZE)
  {
    MapSizes(k);
    RegistersFewerThanReads(k);
    var n := Pow2(k) / REGISTER_SIZE;
    a := Ro(n);
    assert Locs(k, a) == [n];
    OneCall(Baseline, k, a, n);
    assert Touched(Baseline, k, [a])[0] == n;
  }

  /**
   Exactly the map sizes of at least 256 bytes in path mode, and of at least 4096 bytes in baseline
   mode, keep every index of every run inside the map. In baseline mode this is the assertion of
   `sra_push_back`.
   */
  lemma IndicesInsideIff(mode: Mode, k: nat)
    requires Sized(k)
    ensures (forall calls :: AllBelow(Touched(mode, k, calls), ElemCount(mode, k))) <==> SizedFor(mode, k)
  {
    if SizedFor(mode, k) {
      forall calls
        ensures AllBelow(Touched(mode, k, calls), ElemCount(mode, k))
      {
        TouchedInRange(mode, k, calls);
      }
    } else {
      match mode
      case Path => var a := SmallPathMapOverruns(k);
      case Baseline => var a := SmallBaselineMapOverruns(k);
    }
  }

  /** In path mode, whatever was touched before, reads touch the lower half of the map and writes the upper half. */
  lemma ReadsLowWritesHigh(k: nat, prev: nat, a: Access)
    requires 8 <= k <= 31 && prev < Pow2(k - 1)
    ensures var half := Pow2(k - 1); var edges := EdgeTrace(prev, Elems(Path, k, Locs(k, a)));
            match a
            case Ro(_) => |edges| == 1 && edges[0] < half
            case Wo(_) => |edges| == 1 && half <= edges[0] < 2 * half
            case Rw(_) => |edges| == 2 && edges[0] < half && half <= edges[1] < 2 * half
  {
    LocsSplit(k, a);
    var locs := Locs(k, a);
    assert Elems(Path, k, locs) == locs;
    HalfModulusSound(k);
    if a.Wo? {
      XorTopDigit(locs[0], prev, k - 1);
    } else {
      XorBound(locs[0], prev, k - 1);
      if a.Rw? {
        assert locs[1..] == [locs[1]];
        XorTopDigit(locs[1], locs[0] / 2, k - 1);
      }
    }
  }

  /** The same holds after any run, since the previous location stays in the lower half. */
  lemma ReadsLowWritesHighInRuns(k: nat, calls: seq<Access>, a: Access)
    requires 8 <= k <= 31
    ensures PrevAfter(0, LocsOf(k, calls)) < Pow2(k - 1)
    ensures Touched(Path, k, calls + [a]) ==
            Touched(Path, k, calls) + EdgeTrace(PrevAfter(0, LocsOf(k, calls)), Elems(Path, k, Locs(k, a)))
  {
    var locs := LocsOf(k, calls);
    LocsBelow(k, calls);
    EdgesBelow(0, locs, k);
    assert (calls + [a])[..|calls|] == calls;
    assert Elems(Path, k, locs + Locs(k, a)) == Elems(Path, k, locs) + Elems(Path, k, Locs(k, a));
    assert Elems(Path, k, locs) == locs;
    EdgeTraceAppend(0, locs, Elems(Path, k, Locs(k, a)));
  }

  /** The locations a path-mode run passed to `update_loc`, read back from the indices it touched. */
  lemma PathRunDecodes(k: nat, calls: seq<Access>)
    requires Sized(k)
    ensures Decode(0, Touched(Path, k, calls)) == LocsOf(k, calls)
  {
    assert Elems(Path, k, LocsOf(k, calls)) == LocsOf(k, calls);
    DecodeEncode(0, LocsOf(k, calls));
  }

  /** In baseline mode, in every map that is safe, the halves are not kept apart: some write lands on register 0. */
  lemma BaselineWriteInReadHalf(k: nat) returns (a: Access)
    requires 12 <= k <= 31
    ensures a.Wo? && Touched(Baseline, k, [a]) == [0]
  {
    var m, half := RegisterModulus(k), Pow2(k - 1);
    RegisterModulusSound(k);
    HalfModulusSound(k);
    MapSizes(k);
    Pow2Monotone(k - 5, k - 1);
    hide Pow2, HalfModulus, RegisterModulus, Touched;
    var step: nat := m - Rem(half, m);
    assert step < HalfModulus(k) && Rem(step, HalfModulus(k)) == step;
    a := Wo(step);
    hide Rem;
    LocsFrom(k, half, a, Rem(step, Pow2(k - 1)), step);
    OneCall(Baseline, k, a, step + half);
    NextMultiple(half, m);
    assert step + half == half + (m - Rem(half, m));
  }

  /** What one more access touches: one index for a read or a write, two for a read-write. */
  function TouchedBy(mode: Mode, k: nat, calls: seq<Access>, a: Access): seq<nat>
    requires Sized(k)
  {
    EdgeTrace(PrevAfter(0, Elems(mode, k, LocsOf(k, calls))), Elems(mode, k, Locs(k, a)))
  }

  /** Reads touch the first half of the map's elements, writes the second. */
  ghost predicate KeepsApart(mode: Mode, k: nat, calls: seq<Access>, a: Access)
    requires Sized(k)
  {
    var half, edges := ElemCount(mode, k) / 2, TouchedBy(mode, k, calls, a);
    match a
    case Ro(_) => |edges| == 1 && edges[0] < half
    case Wo(_) => |edges| == 1 && half <= edges[0]
    case Rw(_) => |edges| == 2 && edges[0] < half <= edges[1]
  }

  lemma TouchedLast(mode: Mode, k: nat, calls: seq<Access>, a: Access)
    requires Sized(k)
    ensures Touched(mode, k, calls + [a]) == Touched(mode, k, calls) + TouchedBy(mode, k, calls, a)
  {
    assert (calls + [a])[..|calls|] == calls;
    var locs, more := LocsOf(k, calls), Locs(k, a);
    assert LocsOf(k, calls + [a]) == locs + more;
    assert Elems(mode, k, locs + more) == Elems(mode, k, locs) + Elems(mode, k, more);
    EdgeTraceAppend(0, Elems(mode, k, locs), Elems(mode, k, more));
  }

  /** The halves of a safe map are kept apart in all runs exactly in path mode. */
  lemma HalvesApartIff(mode: Mode, k: nat)
    requires SizedFor(mode, k)
    ensures (forall calls, a :: KeepsApart(mode, k, calls, a)) <==> mode.Path?
  {
    match mode
    case Path =>
      forall calls, a
        ensures KeepsApart(Path, k, calls, a)
      {
        PathKeepsApart(k, calls, a);
      }
    case Baseline =>
      var a := BaselineWriteInReadHalf(k);
      BaselineMixes(k, a);
  }

  lemma PathKeepsApart(k: nat, calls: seq<Access>, a: Access)
    requires 8 <= k <= 31
    ensures KeepsApart(Path, k, calls, a)
  {
    var prev := PrevAfter(0, LocsOf(k, calls));
    assert Elems(Path, k, LocsOf(k, calls)) == LocsOf(k, calls);
    HalfOfPathMap(k);
    hide HalfModulus, Xor, Pow2, Rem, Locs, LocsOf, EdgeTrace, PrevAfter, Elems, ElemCount;
    ReadsLowWritesHighInRuns(k, calls, a);
    ReadsLowWritesHigh(k, prev, a);
  }

  lemma HalfOfPathMap(k: nat)
    requires k >= 1
    ensures ElemCount(Path, k) / 2 == Pow2(k - 1) && ElemCount(Path, k) == 2 * Pow2(k - 1)
  {
  }

  lemma BaselineMixes(k: nat, a: Access)
    requires 12 <= k <= 31 && a.Wo? && Touched(Baseline, k, [a]) == [0]
    ensures !KeepsApart(Baseline, k, [], a)
  {
    hide HalfModulus, Xor, RegisterModulus;
    TouchedLast(Baseline, k, [], a);
    assert [] + [a] == [a];
    assert Touched(Baseline, k, []) == [] by {
      assert LocsOf(k, []) == [];
    }
    RegisterModulusSound(k);
    RegisterCount(k);
  }
}
