/** Where VRAM and the GTT go in the GPU's address space (amdgpu_vram_location and amdgpu_gtt_location). */
module Apertures {
  import opened Bits

  const WORD64: nat := 0x1_0000_0000_0000_0000

  /** `x & ~(a - 1)` for a power of two `a`. */
  function RoundDown(x: nat, a: nat): (r: nat)
    requires a >= 1
    ensures r <= x < r + a && r % a == 0
  {
    RemainderBounds(x, a);
    x - x % a
  }

  lemma RemainderBounds(x: nat, a: nat)
    requires a >= 1
    ensures 0 <= x % a < a && x % a <= x && (x - x % a) % a == 0
  {
    assert x == a * (x / a) + x % a;
    QuotientNat(x, a);
    ModUnique(x - x % a, a, x / a, 0);
    assert a * (x / a) >= 0;
  }

  function RoundUp(x: nat, a: nat): (r: nat)
    requires a >= 1
    ensures x <= r < x + a && r % a == 0 && (x % a == 0 ==> r == x)
  {
    AlignedStays(x, a);
    RoundDown(x + (a - 1), a)
  }

  lemma AlignedStays(x: nat, a: nat)
    requires a >= 1
    ensures x % a == 0 ==> (x + (a - 1)) % a == a - 1
  {
    if x % a == 0 {
      assert x == a * (x / a);
      ModUnique(x + (a - 1), a, x / a, a - 1);
    }
  }

  /** The bit operations of the source are these functions. */
  lemma MaskRounds(x: nat, k: nat)
    ensures x - And(x, Pow2(k) - 1) == RoundDown(x, Pow2(k))
  {
    AndMask(x, k);
  }

  /** The VRAM size `amdgpu_vram_location` settles on, for an address space of `space` bytes. */
  function VramSize(space: nat, base: nat, vram: nat, aperture: nat): nat
    requires base < space
  {
    if vram > space - base then aperture else vram
  }

  /** VRAM is cut, to the aperture, exactly if it does not fit; it ends within the address space exactly if it fits or
      the aperture does. */
  lemma VramFitsIff(space: nat, base: nat, vram: nat, aperture: nat)
    requires base < space
    ensures VramSize(space, base, vram, aperture) == if base + vram <= space then vram else aperture
    ensures base + VramSize(space, base, vram, aperture) <= space <==> base + vram <= space || base + aperture <= space
  {
  }

  /** The space above `v` rounded up is what rounding `v` down leaves. */
  lemma Complement(space: nat, v: nat, a: nat)
    requires a >= 1 && space % a == 0 && v <= space
    ensures RoundUp(space - v, a) == space - RoundDown(v, a)
  {
    var y := space - RoundDown(v, a);
    assert space == a * (space / a) && RoundDown(v, a) == a * (RoundDown(v, a) / a);
    ModUnique(y, a, space / a - RoundDown(v, a) / a, 0);
    SameAligned(y, RoundUp(space - v, a), space - v, a);
  }

  lemma SameAligned(x: nat, y: nat, low: nat, a: nat)
    requires a >= 1 && x % a == 0 && y % a == 0 && low <= x < low + a && low <= y < low + a
    ensures x == y
  {
    if x <= y { ModWindow(x, y, a); } else { ModWindow(y, x, a); }
  }

  /** The room above VRAM, which ends before address `end`, in 64-bit arithmetic. */
  function SpaceAbove(space: nat, end: nat, align: nat): nat
    requires align >= 1
  {
    RoundDown((space - end + (align - 1)) % WORD64, align)
  }

  /** It is the whole aligned room if VRAM ends inside the address space, nothing if VRAM runs over by less than the
      alignment, and otherwise, the difference having wrapped, larger than the address space. */
  lemma SpaceAboveMeans(space: nat, end: nat, align: nat)
    requires align >= 1 && space % align == 0 && space + align <= WORD64 && end + align <= WORD64
    ensures end <= space ==> SpaceAbove(space, end, align) == space - RoundDown(end, align)
    ensures space < end < space + align ==> SpaceAbove(space, end, align) == 0
    ensures space + align <= end ==> SpaceAbove(space, end, align) >= space
  {
    if end <= space {
      Complement(space, end, align);
    } else if end < space + align {
      assert RoundDown(space - end + (align - 1), align) % align == 0;
      SameAligned(0, RoundDown(space - end + (align - 1), align), 0, align);
    } else {
      ModUnique(space - end + (align - 1), WORD64, -1, WORD64 + space - end + (align - 1));
    }
  }

  datatype Place = Place(start: nat, size: nat, above: bool)

  /** `amdgpu_gtt_location`, for VRAM from `start` up to `end`, in an address space of `space` bytes. */
  function GttLocation(space: nat, start: nat, end: nat, align: nat, size: nat): (r: Place)
    requires align >= 1 && start <= end && space + align <= WORD64 && end + align <= WORD64
    ensures r.size <= size
    ensures if r.above then end <= r.start < end + align && r.start % align == 0
      else r.start + r.size <= start < r.start + r.size + align && (r.start + r.size) % align == 0
  {
    var sizeAf, sizeBf := SpaceAbove(space, end, align), RoundDown(start, align);
    if sizeBf > sizeAf then
      var gtt := if size > sizeBf then sizeBf else size;
      Place(RoundDown(start, align) - gtt, gtt, false)
    else
      Place(RoundDown(end + (align - 1), align), if size > sizeAf then sizeAf else size, true)
  }

  /** The GTT goes above VRAM: there is at least as much room there as below it, going by the 64-bit difference. */
  predicate GoesAbove(space: nat, start: nat, end: nat, align: nat)
    requires align >= 1
  {
    if end <= space then RoundDown(start, align) <= space - RoundDown(end, align)
    else space + align <= end || RoundDown(start, align) == 0
  }

  /** The GTT is cut only if it is larger than the side it goes to. Below VRAM it always fits the address space; above
      VRAM it does exactly if VRAM itself does and either ends on the alignment or leaves room for the padding and the
      requested size. */
  lemma GttFitsIff(space: nat, start: nat, end: nat, align: nat, size: nat)
    requires align >= 1 && space % align == 0 && start <= end && start < space
    requires space + align <= WORD64 && end + align <= WORD64
    ensures var r := GttLocation(space, start, end, align, size);
      && (r.above <==> GoesAbove(space, start, end, align))
      && (r.size < size ==> r.size == if r.above then SpaceAbove(space, end, align) else RoundDown(start, align))
      && (r.start + r.size <= space <==>
            || !GoesAbove(space, start, end, align)
            || (end <= space && (end % align == 0 || RoundUp(end, align) + size <= space)))
  {
    SpaceAboveMeans(space, end, align);
    if end <= space { FitsAboveIff(space, end, align, size, GttLocation(space, start, end, align, size).size); }
  }

  /** A GTT of the requested size, cut to the space above `v`, fits exactly if `v` is aligned or the padding fits. */
  lemma FitsAboveIff(space: nat, v: nat, a: nat, size: nat, gtt: nat)
    requires a >= 1 && v <= space
    ensures gtt == (if size > space - RoundDown(v, a) then space - RoundDown(v, a) else size) ==>
      (RoundUp(v, a) + gtt <= space <==> v % a == 0 || RoundUp(v, a) + size <= space)
  {
    if v % a != 0 { assert RoundDown(v, a) < v <= RoundUp(v, a); }
  }

  /** VRAM ending off the alignment, and a GTT cut to the space above it, run past the end. */
  lemma GttRunsOver()
    ensures var r := GttLocation(256, 0, 100, 64, 1000); r.above && r.start + r.size == 320 > 256
  {
    assert RoundDown(219, 64) == 192 && RoundDown(163, 64) == 128;
  }

  /** So does a GTT above VRAM that was cut to an aperture larger than the room it has. */
  lemma VramRunsOver()
    ensures var end := 128 + VramSize(256, 128, 512, 256);
      var r := GttLocation(256, 128, end, 64, 64); end > 256 && r.above && r.start + r.size > 256
  {
    SpaceAboveMeans(256, 384, 64);
  }
}
