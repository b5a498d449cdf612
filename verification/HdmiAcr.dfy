/** HDMI audio clock regeneration (amdgpu_afmt.c): N and CTS for a pixel clock.

Section 7.2 of the HDMI 1.3a specification asks for 128 * freq = clock * N / CTS; N should be close to
128 * freq / 1000.
 */
module HdmiAcr {
  import opened Bits

  datatype Acr = Acr(clock: nat, n32: nat, cts32: nat, n44: nat, cts44: nat, n48: nat, cts48: nat)

  const TABLE: seq<Acr> := [
    Acr(25175, 4096, 25175, 28224, 125875, 6144, 25175),
    Acr(25200, 4096, 25200, 6272, 28000, 6144, 25200),
    Acr(27000, 4096, 27000, 6272, 30000, 6144, 27000),
    Acr(27027, 4096, 27027, 6272, 30030, 6144, 27027),
    Acr(54000, 4096, 54000, 6272, 60000, 6144, 54000),
    Acr(54054, 4096, 54054, 6272, 60060, 6144, 54054),
    Acr(74176, 4096, 74176, 5733, 75335, 6144, 74176),
    Acr(74250, 4096, 74250, 6272, 82500, 6144, 74250),
    Acr(148352, 4096, 148352, 5733, 150670, 6144, 148352),
    Acr(148500, 4096, 148500, 6272, 165000, 6144, 148500)]

  /** The pair regenerates the audio clock exactly; `c` is the pixel clock in Hz and `f` is 128 times the audio rate. */
  ghost predicate Exact(n: nat, cts: nat, c: nat, f: nat) {
    n * c == cts * f
  }

  /** No exact pair has a smaller N that is at least `least`. */
  ghost predicate Least(n: nat, c: nat, f: nat, least: nat) {
    forall m: nat, cts: nat :: Exact(m, cts, c, f) && m >= least ==> n <= m
  }

  // ---------------------------------------------------------------------------------------------
  // Greatest common divisors

  function Gcd(a: nat, b: nat): nat
    decreases b
  {
    if b == 0 then a else Gcd(b, a % b)
  }

  lemma {:induction false} GcdDivides(a: nat, b: nat) returns (p: nat, q: nat)
    requires a > 0 || b > 0
    ensures Gcd(a, b) > 0 && a == p * Gcd(a, b) && b == q * Gcd(a, b)
    decreases b
  {
    if b == 0 {
      p, q := 1, 0;
    } else {
      var g := Gcd(b, a % b);
      var r;
      q, r := GcdDivides(b, a % b);
      p := a / b * q + r;
      calc {
        a;
        a / b * b + a % b;
        a / b * (q * g) + r * g;
        p * g;
      }
    }
  }

  lemma {:induction false} Bezout(a: nat, b: nat) returns (x: int, y: int)
    ensures a * x + b * y == Gcd(a, b)
    decreases b
  {
    if b == 0 {
      x, y := 1, 0;
    } else {
      var u, v := Bezout(b, a % b);
      x, y := v, u - a / b * v;
      BezoutStep(a, b, a / b, a % b, u, v);
    }
  }

  lemma BezoutStep(a: int, b: int, d: int, r: int, u: int, v: int)
    requires a == b * d + r
    ensures a * v + b * (u - d * v) == b * u + r * v
  {
    assert a * v == b * d * v + r * v;
  }

  /** Of a reduced fraction `p / q`, the numerator divides every numerator of an equal fraction. */
  lemma ReducedDivides(f: nat, c: nat, p: nat, q: nat, m: nat, cts: nat) returns (k: int)
    requires f > 0 && f == p * Gcd(f, c) && c == q * Gcd(f, c) && Exact(m, cts, c, f)
    ensures m == k * p
  {
    var g := Gcd(f, c);
    var x, y := Bezout(f, c);
    k := m * x + cts * y;
    Combine(m, cts, c, f, x, y);
    assert f * k == (k * p) * g;
    Cancel(m, k * p, g);
  }

  lemma Combine(m: int, cts: int, c: int, f: int, x: int, y: int)
    requires m * c == cts * f
    ensures m * (f * x + c * y) == f * (m * x + cts * y)
  {
    assert m * c * y == cts * f * y;
  }

  lemma Cancel(a: int, b: int, g: int)
    requires g != 0 && a * g == b * g
    ensures a == b
  {
  }

  /** `amdgpu_afmt_calc_cts` rounds up to a multiple of the reduced numerator. */
  lemma RoundUp(p: nat, least: nat, mul: nat)
    requires p >= 1 && mul == (least + (p - 1)) / p
    ensures least <= p * mul < least + p
  {
  }

  lemma MultipleAtLeast(p: nat, k: int, mul: nat, least: nat)
    requires p >= 1 && k * p >= least && mul == (least + (p - 1)) / p
    ensures p * mul <= k * p
  {
    RoundUp(p, least, mul);
    MultipleIsFar(p, mul - k);
    assert p * (mul - k) == p * mul - k * p;
  }

  lemma IsLeast(f: nat, c: nat, p: nat, q: nat, mul: nat, least: nat)
    requires f > 0 && p >= 1 && f == p * Gcd(f, c) && c == q * Gcd(f, c) && mul == (least + (p - 1)) / p
    ensures Least(p * mul, c, f, least)
  {
    forall m: nat, cts: nat | Exact(m, cts, c, f) && m >= least
      ensures p * mul <= m
    {
      var k := ReducedDivides(f, c, p, q, m, cts);
      MultipleAtLeast(p, k, mul, least);
    }
  }

  /** Neither result is larger than the unreduced numbers. */
  lemma Bounds(f: nat, c: nat, p: nat, mul: nat, least: nat, cts: nat)
    requires 1 <= p <= f && 1 <= least && 2 * least <= f && mul == (least + (p - 1)) / p
    requires Exact(p * mul, cts, c, f)
    ensures p * mul <= f && cts <= c
  {
    RoundUp(p, least, mul);
    if p >= least { ModUnique(least + (p - 1), p, 1, least - 1); }
    SmallerSide(p * mul, cts, c, f);
  }

  lemma SmallerSide(n: nat, cts: nat, c: nat, f: nat)
    requires n <= f && f >= 1 && Exact(n, cts, c, f)
    ensures cts <= c
  {
    MultipleIsFar(f, cts - c);
    assert f * (cts - c) == (n - f) * c;
    NotPositive(f - n, c);
    assert (n - f) * c == -((f - n) * c);
  }

  lemma NotPositive(a: nat, b: nat)
    ensures a * b >= 0
  {
  }

  lemma Rescaled(f: nat, c: nat, p: nat, q: nat, g: nat, mul: nat)
    requires f == p * g && c == q * g
    ensures Exact(p * mul, q * mul, c, f)
  {
    assert (p * mul) * (q * g) == (q * mul) * (p * g);
  }

  /** Reducing and rescaling gives the least exact pair, within the range of the unreduced numbers. */
  lemma Scaling(f: nat, c: nat, least: nat) returns (p: nat, q: nat)
    requires 1 <= least && 2 * least <= f
    ensures Gcd(f, c) >= 1 && f / Gcd(f, c) == p >= 1 && c / Gcd(f, c) == q
    ensures var mul := (least + (p - 1)) / p;
      && Exact(p * mul, q * mul, c, f) && Least(p * mul, c, f, least) && least <= p * mul <= f && q * mul <= c
  {
    p, q := GcdDivides(f, c);
    var g := Gcd(f, c);
    ModUnique(f, g, p, 0);
    ModUnique(c, g, q, 0);
    assert p >= 1;
    MultipleIsFar(p, g);
    var mul := (least + (p - 1)) / p;
    Rescaled(f, c, p, q, g, mul);
    IsLeast(f, c, p, q, mul, least);
    RoundUp(p, least, mul);
    Bounds(f, c, p, mul, least, q * mul);
  }

  // ---------------------------------------------------------------------------------------------
  // amdgpu_afmt_calc_cts and amdgpu_afmt_acr

  /** The least exact pair with N not below `least`: reduce the fraction, then scale it up again. */
  method Rescale(f: nat, c: nat, least: nat) returns (n: nat, cts: nat)
    requires 1 <= least && 2 * least <= f
    ensures Exact(n, cts, c, f) && Least(n, c, f, least) && least <= n <= f && cts <= c
  {
    ghost var p, q := Scaling(f, c, least);
    n, cts := f, c;
    var div := Gcd(n, cts);
    n := n / div;
    cts := cts / div;
    var mul := (least + (n - 1)) / n;
    n := n * mul;
    cts := cts * mul;
  }

  /** `amdgpu_afmt_calc_cts`, for a clock in kHz small enough that `clock * 1000` fits an `int`. `small` and `large` say
      whether a warning is printed. */
  method CalcCts(clock: nat, freq: nat) returns (n: nat, cts: nat, small: bool, large: bool)
    requires clock * 1000 < 0x8000_0000 && 8 <= freq && 128 * freq < 0x8000_0000
    ensures Exact(n, cts, clock * 1000, 128 * freq)
    ensures n >= 128 * freq / 1000 && Least(n, clock * 1000, 128 * freq, 128 * freq / 1000)
    ensures !small && (large <==> n > 128 * freq / 300)
    ensures n <= 128 * freq && cts <= clock * 1000
  {
    n, cts := Rescale(128 * freq, clock * 1000, 128 * freq / 1000);
    small := n < 128 * freq / 1500;
    large := n > 128 * freq / 300;
  }

  /** Every row of the table is exact. */
  lemma TableExact(i: nat)
    requires i < |TABLE|
    ensures var r := TABLE[i]; var c := r.clock * 1000;
      && Exact(r.n32, r.cts32, c, 128 * 32000) && Exact(r.n44, r.cts44, c, 128 * 44100)
      && Exact(r.n48, r.cts48, c, 128 * 48000)
  {
  }

  /** `amdgpu_afmt_acr`: exact for all three audio rates, whether the clock is in the table or not. */
  method LookUp(clock: nat) returns (r: Acr)
    requires clock * 1000 < 0x8000_0000
    ensures Exact(r.n32, r.cts32, clock * 1000, 128 * 32000)
    ensures Exact(r.n44, r.cts44, clock * 1000, 128 * 44100)
    ensures Exact(r.n48, r.cts48, clock * 1000, 128 * 48000)
    ensures r !in TABLE ==>
      && Least(r.n32, clock * 1000, 128 * 32000, 4096) && Least(r.n44, clock * 1000, 128 * 44100, 5644)
      && Least(r.n48, clock * 1000, 128 * 48000, 6144)
    ensures r in TABLE <==> exists i :: 0 <= i < |TABLE| && TABLE[i].clock == clock
    ensures r.clock == clock
  {
    for i := 0 to |TABLE|
      invariant forall j :: 0 <= j < i ==> TABLE[j].clock != clock
    {
      if TABLE[i].clock == clock {
        TableExact(i);
        return TABLE[i];
      }
    }
    var n32, cts32, _, _ := CalcCts(clock, 32000);
    var n44, cts44, _, _ := CalcCts(clock, 44100);
    var n48, cts48, _, _ := CalcCts(clock, 48000);
    r := Acr(clock, n32, cts32, n44, cts44, n48, cts48);
  }
}
