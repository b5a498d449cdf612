/** The u/p scaling loop of the power tables (amdgpu_calculate_u_and_p in amdgpu_dpm.c). */
module DpmScale {
  import opened Bits

  /** A right shift. */
  function Shr(x: nat, b: nat): nat {
    QuotientNat(x, Pow2(b));
    x / Pow2(b)
  }

  /** The number of bits of `x`. */
  function BitLength(x: nat): nat {
    if x == 0 then 0 else 1 + BitLength(x / 2)
  }

  lemma {:induction false} BitLengthMeans(x: nat)
    ensures x < Pow2(BitLength(x)) && (x > 0 ==> Pow2(BitLength(x) - 1) <= x)
  {
    if x > 0 { BitLengthMeans(x / 2); }
  }

  /** `x` shifted right by `b` fits in `k` bits exactly if `x` fits in `b + k`. */
  lemma ShiftFits(x: nat, b: nat, k: nat)
    ensures Shr(x, b) < Pow2(k) <==> x < Pow2(b + k)
  {
    Pow2Plus(b, k);
    DivLess(x, Pow2(b), Pow2(k));
  }

  lemma FitsIff(x: nat, k: nat)
    ensures x < Pow2(k) <==> BitLength(x) <= k
  {
    BitLengthMeans(x);
    if BitLength(x) <= k {
      Pow2Monotone(BitLength(x), k);
    } else {
      Pow2Monotone(k, BitLength(x) - 1);
    }
  }

  /** Scaling `x` by `4^u` makes it fit in `b` bits exactly if `x >> b` has at most `2 * u` bits. */
  lemma ScaledFits(x: nat, b: nat, u: nat)
    ensures Shr(x, 2 * u) < Pow2(b) <==> BitLength(Shr(x, b)) <= 2 * u
  {
    ShiftFits(x, 2 * u, b);
    ShiftFits(x, b, 2 * u);
    FitsIff(Shr(x, b), 2 * u);
  }

  lemma IntervalFits()
    ensures WORD / 100 < Pow2(30)
  {
    Pow2Of32();
    Pow2Plus(2, 30);
    assert Pow2(2) == 4;
  }

  lemma Small(ic: nat, bits: nat)
    requires ic <= WORD / 100
    ensures BitLength(Shr(ic, bits)) <= 30
  {
    IntervalFits();
    Pow2Monotone(30, bits + 30);
    ShiftFits(ic, bits, 30);
    FitsIff(Shr(ic, bits), 30);
  }

  /** `amdgpu_calculate_u_and_p`: `u` is the least scaling by powers of four that makes the interval fit in `bits` bits,
      and `p` the scaled interval. The multiplication wraps; the shift amounts never reach the word size. */
  method CalculateUAndP(i: nat, rc: nat, bits: nat) returns (p: nat, u: nat)
    requires i < WORD && rc < WORD && bits < 32
    ensures var ic := i * rc % WORD / 100;
      && p == Shr(ic, 2 * u) < Pow2(bits)
      && (forall v :: 0 <= v < u ==> Shr(ic, 2 * v) >= Pow2(bits))
    ensures 2 * u < 32
  {
    var bc, ic := 0, i * rc % WORD / 100;
    var tmp := Shr(ic, bits);
    while tmp > 0
      invariant bc + BitLength(tmp) == BitLength(Shr(ic, bits))
    {
      bc := bc + 1;
      tmp := tmp / 2;
    }
    u := (bc + 1) / 2;
    p := Shr(ic, 2 * u);
    ScaledFits(ic, bits, u);
    forall v: nat | v < u
      ensures Shr(ic, 2 * v) >= Pow2(bits)
    {
      ScaledFits(ic, bits, v);
    }
    Small(ic, bits);
  }
}
