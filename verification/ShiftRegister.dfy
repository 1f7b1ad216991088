/** The shift registers of include/shiftregarr.h and the rounding that sizes them. */
module ShiftRegister {
  import opened Bits

  // ---------- Rounding up to a power of two ----------

  predicate IsPowerOfTwo(p: bv32) {
    p != 0 && p & (p - 1) == 0
  }

  /** There are 32 of them. */
  lemma PowersOfTwo(p: bv32)
    ensures IsPowerOfTwo(p) <==> p in {
              0x1, 0x2, 0x4, 0x8, 0x10, 0x20, 0x40, 0x80,
              0x100, 0x200, 0x400, 0x800, 0x1000, 0x2000, 0x4000, 0x8000,
              0x10000, 0x20000, 0x40000, 0x80000, 0x100000, 0x200000, 0x400000, 0x800000,
              0x1000000, 0x2000000, 0x4000000, 0x8000000, 0x10000000, 0x20000000, 0x40000000, 0x80000000
            }
  {
  }

  /** Smears the top digit of `val - 1` over every lower digit, then adds one; all in 32-bit words. */
  method GetNextPow2(val: bv32) returns (r: bv32)
    ensures 1 <= val <= 0x8000_0000 ==>
              IsPowerOfTwo(r) && val <= r && forall p :: IsPowerOfTwo(p) && val <= p ==> r <= p
    ensures val == 0 || 0x8000_0000 < val ==> r == 0
  {
    r := val - 1;
    r := r | (r >> 1);
    r := r | (r >> 2);
    r := r | (r >> 4);
    r := r | (r >> 8);
    r := r | (r >> 16);
    r := r + 1;
  }

  // ---------- Bits of a byte buffer ----------

  /** The byte with only bit `k` set. */
  function Mask(k: nat): bv8
    requires k < 8
  {
    match k
    case 0 => 0x01
    case 1 => 0x02
    case 2 => 0x04
    case 3 => 0x08
    case 4 => 0x10
    case 5 => 0x20
    case 6 => 0x40
    case _ => 0x80
  }

  predicate TestBit(x: bv8, k: nat)
    requires k < 8
  {
    x & Mask(k) != 0
  }

  lemma MaskIs(x: bv8, k: nat)
    requires k < 8
    ensures TestBit(x, k) <==> (x >> k) & 1 == 1
  {
  }

  /** BITSET or BITCLEAR on one byte. */
  function Force(x: bv8, k: nat, v: bool): (y: bv8)
    requires k < 8
  {
    if v then x | Mask(k) else x & !Mask(k)
  }

  lemma ForcedBit(x: bv8, k: nat, v: bool, j: nat)
    requires k < 8 && j < 8
    ensures TestBit(Force(x, k, v), j) == if j == k then v else TestBit(x, j)
  {
  }

  lemma FlipBit(x: bv8, j: nat)
    requires j < 8
    ensures TestBit(!x, j) <==> !TestBit(x, j)
  {
  }

  /** A byte is its eight bits. */
  lemma ByteIsItsBits(x: bv8, y: bv8)
    requires forall j: nat :: j < 8 ==> TestBit(x, j) == TestBit(y, j)
    ensures x == y
  {
    assert TestBit(x, 0) == TestBit(y, 0);
    assert TestBit(x, 1) == TestBit(y, 1);
    assert TestBit(x, 2) == TestBit(y, 2);
    assert TestBit(x, 3) == TestBit(y, 3);
    assert TestBit(x, 4) == TestBit(y, 4);
    assert TestBit(x, 5) == TestBit(y, 5);
    assert TestBit(x, 6) == TestBit(y, 6);
    assert TestBit(x, 7) == TestBit(y, 7);
  }

  // ---------- Registers ----------

  /** The register of `width` bytes that starts at byte `base`, lowest bit first. */
  function Register(mem: seq<bv8>, base: nat, width: nat): (bits: seq<bool>)
    requires base + width <= |mem|
    ensures |bits| == 8 * width
  {
    seq(8 * width, b requires 0 <= b < 8 * width => TestBit(mem[base + b / 8], b % 8))
  }

  /** The highest position that holds `v`, or -1. */
  function LastIndex(bits: seq<bool>, v: bool): (h: int)
    ensures -1 <= h < |bits|
    ensures h >= 0 ==> bits[h] == v
    ensures forall i :: h < i < |bits| ==> bits[i] != v
  {
    if |bits| == 0 then -1
    else if bits[|bits| - 1] == v then |bits| - 1
    else LastIndex(bits[..|bits| - 1], v)
  }

  /** One push: the highest bit that differs from `basebit` moves up by one and stops at the top. */
  function Push(bits: seq<bool>, basebit: bool): (r: seq<bool>)
    requires |bits| > 0
    ensures |r| == |bits|
  {
    var h := LastIndex(bits, !basebit);
    if h == |bits| - 1 then bits
    else
      var r := bits[h + 1 := !basebit];
      if h >= 0 then r[h := basebit] else r
  }

  /** The highest bit that differs from `basebit` moves up by one place; a clear register gets its lowest. */
  lemma PushMoves(bits: seq<bool>, basebit: bool, h: int)
    requires -1 <= h < |bits| && |bits| > 0 && (h >= 0 ==> bits[h] != basebit)
    requires forall i :: h < i < |bits| ==> bits[i] == basebit
    ensures h == |bits| - 1 ==> Push(bits, basebit) == bits
    ensures h < |bits| - 1 ==> forall i :: 0 <= i < |bits| ==>
              (Push(bits, basebit)[i] != basebit <==> i == h + 1 || (i != h && bits[i] != basebit))
  {
    LastIndexUnique(bits, !basebit, h);
  }

  /** What one call does to the whole buffer. */
  ghost predicate Pushed(before: seq<bv8>, after: seq<bv8>, base: nat, width: nat, basebit: bool)
    requires width > 0
  {
    && |after| == |before|
    && base + width <= |before|
    && (forall i :: 0 <= i < |before| && !(base <= i < base + width) ==> after[i] == before[i])
    && Register(after, base, width) == Push(Register(before, base, width), basebit)
  }

  lemma {:induction false} ProductMonotone(a: nat, b: nat, c: nat)
    requires a <= b
    ensures a * c <= b * c
    decreases b - a
  {
    if a < b {
      assert (a + 1) * c == a * c + c;
      ProductMonotone(a + 1, b, c);
    }
  }

  lemma RegisterFits(loc: nat, width: nat, size: nat)
    requires width > 0 && loc < size / width
    ensures loc * width + width <= size
  {
    ProductMonotone(loc + 1, size / width, width);
    assert (loc + 1) * width == loc * width + width;
    assert (size / width) * width <= size;
  }

  /** Forcing bit `b` of a register, one byte of the buffer, changes that bit of the register and no other. */
  lemma RegisterForced(mem: seq<bv8>, after: seq<bv8>, base: nat, width: nat, b: nat, v: bool)
    requires base + width <= |mem| && b < 8 * width
    requires after == mem[base + b / 8 := Force(mem[base + b / 8], b % 8, v)]
    ensures Register(after, base, width) == Register(mem, base, width)[b := v]
  {
    var want := Register(mem, base, width)[b := v];
    forall j: nat | j < 8 * width
      ensures Register(after, base, width)[j] == want[j]
    {
      RegisterBit(after, base, width, j);
      RegisterBit(mem, base, width, j);
      if j / 8 == b / 8 {
        ForcedBit(mem[base + b / 8], b % 8, v, j % 8);
        SameBit(j, b);
      } else {
        OtherByte(base, j, b);
      }
    }
  }

  lemma RegisterBit(mem: seq<bv8>, base: nat, width: nat, j: nat)
    requires base + width <= |mem| && j < 8 * width
    ensures Register(mem, base, width)[j] == TestBit(mem[base + j / 8], j % 8)
  {
  }

  lemma SameBit(j: nat, b: nat)
    requires j / 8 == b / 8
    ensures j % 8 == b % 8 <==> j == b
  {
  }

  lemma OtherByte(base: nat, j: nat, b: nat)
    requires j / 8 != b / 8
    ensures j != b && base + j / 8 != base + b / 8
  {
  }

  lemma LastIndexUnique(bits: seq<bool>, v: bool, h: int)
    requires -1 <= h < |bits|
    requires h >= 0 ==> bits[h] == v
    requires forall i :: h < i < |bits| ==> bits[i] != v
    ensures h == LastIndex(bits, v)
  {
  }

  /** The scan of `sra_push_back`, from the top bit down. */
  method ScanDown(mem: array<bv8>, base: nat, width: nat, basebit: bool) returns (it: int)
    requires 0 < width && base + width <= mem.Length
    ensures it == LastIndex(Register(mem[..], base, width), !basebit)
  {
    ghost var bits := Register(mem[..], base, width);
    it := 8 * width - 1;
    while it >= 0 && TestBit(mem[base + it / 8], it % 8) == basebit
      invariant -1 <= it < 8 * width
      invariant forall i :: it < i < 8 * width ==> bits[i] == basebit
    {
      RegisterBit(mem[..], base, width, it);
      it := it - 1;
    }
    if it >= 0 {
      RegisterBit(mem[..], base, width, it);
    }
    LastIndexUnique(bits, !basebit, it);
  }

  method WriteBit(mem: array<bv8>, base: nat, width: nat, b: nat, v: bool)
    requires base + width <= mem.Length && b < 8 * width
    modifies mem
    ensures forall i :: 0 <= i < mem.Length && !(base <= i < base + width) ==> mem[i] == old(mem[i])
    ensures Register(mem[..], base, width) == Register(old(mem[..]), base, width)[b := v]
  {
    mem[base + b / 8] := Force(mem[base + b / 8], b % 8, v);
    RegisterForced(old(mem[..]), mem[..], base, width, b, v);
  }

  /** The conversion of a size to `int32_t`. */
  function ToInt32(n: nat): int {
    var w := n % 0x1_0000_0000;
    if w < 0x8000_0000 then w else w - 0x1_0000_0000
  }

  /** The scan index, an `int32_t` that counts bits, starts inside the register. */
  predicate StartsInside(elemSize: nat) {
    ToInt32(8 * elemSize) >= 0
  }

  /** How many bytes of its register a call looks at. */
  function SeenBytes(elemSize: nat): (w: nat)
    requires StartsInside(elemSize)
    ensures 8 * w == ToInt32(8 * elemSize) && w <= elemSize
  {
    SeenIsWhole(elemSize);
    ToInt32(8 * elemSize) / 8
  }

  lemma SeenIsWhole(elemSize: nat)
    ensures ToInt32(8 * elemSize) % 8 == 0 && ToInt32(8 * elemSize) <= 8 * elemSize
  {
    var q := 8 * elemSize / 0x1_0000_0000;
    assert 8 * elemSize % 0x1_0000_0000 == 8 * (elemSize - q * 0x2000_0000);
  }

  /** What one call does to the whole buffer: a push of the bytes it looks at. */
  ghost predicate PushedSeen(before: seq<bv8>, after: seq<bv8>, base: nat, elemSize: nat, basebit: bool)
    requires StartsInside(elemSize)
  {
    if SeenBytes(elemSize) == 0 then after == before
    else Pushed(before, after, base, SeenBytes(elemSize), basebit)
  }

  /**
   `sra_push_back`: the bit found by the scan moves up by one place, and stays where it is at the top. When
   the scan index starts outside the register what the call does is undefined, and the model stops there.
   */
  method SraPushBack(mem: array<bv8>, elemSize: nat, loc: nat, basebit: bv8) returns (inside: bool)
    requires 0 < elemSize && loc < mem.Length / elemSize
    modifies mem
    ensures inside <==> StartsInside(elemSize)
    ensures inside ==> PushedSeen(old(mem[..]), mem[..], loc * elemSize, elemSize, basebit != 0)
    ensures !inside ==> mem[..] == old(mem[..])
  {
    RegisterFits(loc, elemSize, mem.Length);
    var base := loc * elemSize;
    var start := ToInt32(8 * elemSize);
    if start < 0 {
      return false;
    }
    inside := true;
    var width := SeenBytes(elemSize);
    if width == 0 {
      return;
    }
    var it := ScanDown(mem, base, width, basebit != 0);
    if it != start - 1 {
      WriteBit(mem, base, width, it + 1, basebit == 0);
      if it + 1 != 0 {
        WriteBit(mem, base, width, it, basebit != 0);
      }
    }
  }

  // ---------- Element sizes ----------

  /** All bytes of a register but `w - 1` are zero, and that one has its top bit set. */
  function TopOf(elemSize: nat, w: nat): seq<bv8> {
    seq(elemSize, i => if i == w - 1 then 0x80 else 0)
  }

  lemma TopBits(elemSize: nat, w: nat, width: nat)
    requires w <= width <= elemSize
    ensures Register(TopOf(elemSize, w), 0, width) == OneHot(8 * width, 8 * w)
  {
    var mem := TopOf(elemSize, w);
    forall j: nat | j < 8 * width
      ensures Register(mem, 0, width)[j] <==> j == 8 * w - 1
    {
      RegisterBit(mem, 0, width, j);
      TopByte(j % 8);
    }
  }

  lemma TopByte(k: nat)
    requires k < 8
    ensures TestBit(0x80, k) <==> k == 7
    ensures !TestBit(0, k)
  {
    match k
    case 0 => case 1 => case 2 => case 3 => case 4 => case 5 => case 6 => case 7 =>
  }

  /** A call that looks at fewer bytes leaves a register full when those are full. */
  lemma NarrowPush(elemSize: nat)
    requires 0 < elemSize && StartsInside(elemSize) && SeenBytes(elemSize) < elemSize
    ensures var mem := TopOf(elemSize, SeenBytes(elemSize));
            PushedSeen(mem, mem, 0, elemSize, false) && !Pushed(mem, mem, 0, elemSize, false)
  {
    var w := SeenBytes(elemSize);
    var mem := TopOf(elemSize, w);
    TopBits(elemSize, w, elemSize);
    PushOneHot(8 * elemSize, 8 * w);
    OneHotDistinct(8 * elemSize, 8 * w, 8 * w + 1);
    if w > 0 {
      TopBits(elemSize, w, w);
      PushOneHot(8 * w, 8 * w);
      assert OneHot(8 * w, 8 * w) == OneHot(8 * w, 8 * w + 1);
    }
  }

  lemma StartFits(elemSize: nat)
    ensures ToInt32(8 * elemSize) == 8 * elemSize <==> 8 * elemSize <= 0x7FFF_FFFF
  {
  }

  lemma WholePush(elemSize: nat)
    requires 0 < elemSize && 8 * elemSize <= 0x7FFF_FFFF
    ensures StartsInside(elemSize)
    ensures forall before, after, base: nat, basebit ::
              PushedSeen(before, after, base, elemSize, basebit) ==> Pushed(before, after, base, elemSize, basebit)
  {
    StartFits(elemSize);
  }

  /** The note admits elements of up to INT_32_MAX bytes. Calls push whole registers exactly up to an eighth of that. */
  lemma FullPushIff(elemSize: nat)
    requires 0 < elemSize
    ensures (StartsInside(elemSize) && forall before, after, base: nat, basebit ::
               base + elemSize <= |before| && PushedSeen(before, after, base, elemSize, basebit)
               ==> Pushed(before, after, base, elemSize, basebit))
            <==> 8 * elemSize <= 0x7FFF_FFFF
  {
    StartFits(elemSize);
    if StartsInside(elemSize) && 8 * elemSize > 0x7FFF_FFFF {
      NarrowPush(elemSize);
      var mem := TopOf(elemSize, SeenBytes(elemSize));
      assert 0 + elemSize <= |mem|;
    }
  }

  /** The bytes a call looks at repeat every 2^29 sizes, and for the upper half of those the scan starts outside. */
  lemma SeenBytesRepeat(elemSize: nat)
    ensures StartsInside(elemSize) <==> elemSize % 0x2000_0000 < 0x1000_0000
    ensures StartsInside(elemSize) ==> SeenBytes(elemSize) == elemSize % 0x2000_0000
  {
    var q := elemSize / 0x2000_0000;
    assert 8 * elemSize == q * 0x1_0000_0000 + 8 * (elemSize % 0x2000_0000);
    assert 8 * elemSize % 0x1_0000_0000 == 8 * (elemSize % 0x2000_0000);
  }

  /**
   Sizes the note admits: from 2^28 bytes on the scan starts outside, 2^29 bytes are never changed, 32 more count
   like 32.
   */
  lemma LargeElements()
    ensures !StartsInside(0x1000_0000) && !StartsInside(0x1000_0001)
    ensures StartsInside(0x2000_0000) && SeenBytes(0x2000_0000) == 0
    ensures StartsInside(0x2000_0020) && SeenBytes(0x2000_0020) == 32
  {
  }

  // ---------- Counting by pushing ----------

  function Repeat(b: bool, n: nat): seq<bool> {
    seq(n, _ => b)
  }

  /** `n` bits with only position `count - 1` set, stopping at the top; count 0 is the cleared register. */
  function OneHot(n: nat, count: nat): seq<bool> {
    seq(n, i => i == Min(count, n) - 1)
  }

  function PushTimes(bits: seq<bool>, basebit: bool, times: nat): (r: seq<bool>)
    requires |bits| > 0
    ensures |r| == |bits|
  {
    if times == 0 then bits else Push(PushTimes(bits, basebit, times - 1), basebit)
  }

  lemma PushOneHot(n: nat, count: nat)
    requires n > 0
    ensures Push(OneHot(n, count), false) == OneHot(n, count + 1)
  {
    var bits := OneHot(n, count);
    LastIndexUnique(bits, true, Min(count, n) - 1);
  }

  /** A cleared register counts pushes in unary, up to its width. */
  lemma {:induction false} RegisterCounts(n: nat, times: nat)
    requires n > 0
    ensures PushTimes(Repeat(false, n), false, times) == OneHot(n, times)
  {
    if times == 0 {
      assert Repeat(false, n) == OneHot(n, 0);
    } else {
      RegisterCounts(n, times - 1);
      PushOneHot(n, times - 1);
    }
  }

  /** Counts that differ below the cap leave different registers. */
  lemma OneHotDistinct(n: nat, a: nat, b: nat)
    requires Min(a, n) != Min(b, n)
    ensures OneHot(n, a) != OneHot(n, b)
  {
    var p := if Min(a, n) < Min(b, n) then Min(b, n) - 1 else Min(a, n) - 1;
    assert OneHot(n, a)[p] != OneHot(n, b)[p];
  }

  // ---------- Duality in the base bit ----------

  function Flip(bits: seq<bool>): (r: seq<bool>)
    ensures |r| == |bits|
  {
    seq(|bits|, i requires 0 <= i < |bits| => !bits[i])
  }

  function Complement(mem: seq<bv8>): (r: seq<bv8>)
    ensures |r| == |mem|
  {
    seq(|mem|, i requires 0 <= i < |mem| => !mem[i])
  }

  lemma PushDual(bits: seq<bool>, basebit: bool)
    requires |bits| > 0
    ensures Push(Flip(bits), !basebit) == Flip(Push(bits, basebit))
  {
    LastIndexUnique(Flip(bits), basebit, LastIndex(bits, !basebit));
  }

  lemma RegisterOfComplement(mem: seq<bv8>, base: nat, width: nat)
    requires base + width <= |mem|
    ensures Register(Complement(mem), base, width) == Flip(Register(mem, base, width))
  {
    forall j: nat | j < 8 * width
      ensures Register(Complement(mem), base, width)[j] == Flip(Register(mem, base, width))[j]
    {
      RegisterBit(mem, base, width, j);
      RegisterBit(Complement(mem), base, width, j);
      FlipBit(mem[base + j / 8], j % 8);
    }
  }

  /** The bytes of a register are determined by its bits. */
  lemma SameRegisterSameBytes(x: seq<bv8>, y: seq<bv8>, base: nat, width: nat, i: nat)
    requires |x| == |y| && base + width <= |x| && base <= i < base + width
    requires Register(x, base, width) == Register(y, base, width)
    ensures x[i] == y[i]
  {
    forall j: nat | j < 8
      ensures TestBit(x[i], j) == TestBit(y[i], j)
    {
      var b := 8 * (i - base) + j;
      RegisterBit(x, base, width, b);
      RegisterBit(y, base, width, b);
    }
    ByteIsItsBits(x[i], y[i]);
  }

  /** A push is deterministic: the bytes before it fix the bytes after it. */
  lemma PushedDeterministic(before: seq<bv8>, x: seq<bv8>, y: seq<bv8>, base: nat, width: nat, basebit: bool)
    requires width > 0
    requires Pushed(before, x, base, width, basebit) && Pushed(before, y, base, width, basebit)
    ensures x == y
  {
    forall i | 0 <= i < |before|
      ensures x[i] == y[i]
    {
      if base <= i < base + width {
        SameRegisterSameBytes(x, y, base, width, i);
      }
    }
  }

  /** Pushing with the other base bit on the complemented buffer gives the complement of the pushed buffer. */
  lemma BaseBitDuality(before: seq<bv8>, x: seq<bv8>, y: seq<bv8>, base: nat, width: nat, basebit: bool)
    requires width > 0
    requires Pushed(before, x, base, width, basebit)
    requires Pushed(Complement(before), y, base, width, !basebit)
    ensures y == Complement(x)
  {
    RegisterOfComplement(before, base, width);
    RegisterOfComplement(x, base, width);
    PushDual(Register(before, base, width), basebit);
    PushedDeterministic(Complement(before), y, Complement(x), base, width, !basebit);
  }
}
