/** The buffer-migration throttle of command submission (amdgpu_cs.c).

The currency is microseconds: the clock credits them, reported moves debit them, and a submission may move
buffers for comfort only while the balance is positive. The balance may go negative once; that is the debt.
Only a submission whose validation succeeds reports what it moved.
 */
module MoveThrottle {
  import opened Bits

  const UPPER_BOUND_US: int := 200000
  const FREE_ENOUGH: nat := 128 * 1024 * 1024

  /** `us_to_bytes` for a bandwidth of 2^l MB/s; l == 0 means the throttle is off. */
  function UsToBytes(l: nat, us: int): nat {
    if us <= 0 || l == 0 then 0 else us * Pow2(l)
  }

  function BytesToUs(l: nat, bytes: nat): nat {
    QuotientNat(bytes, Pow2(l));
    if l == 0 then 0 else bytes / Pow2(l)
  }

  /** Converting there and back: exact from microseconds, and from bytes short by less than one microsecond. */
  lemma ConversionRoundTrip(l: nat, us: nat, bytes: nat)
    requires l > 0
    ensures BytesToUs(l, UsToBytes(l, us)) == us
    ensures UsToBytes(l, BytesToUs(l, bytes)) <= bytes < UsToBytes(l, BytesToUs(l, bytes)) + Pow2(l)
  {
    var m := Pow2(l);
    ModUnique(us * m, m, us, 0);
    assert bytes == m * (bytes / m) + bytes % m;
    if bytes / m == 0 { assert m * (bytes / m) == 0; }
  }

  datatype Stats = Stats(accumUs: int, lastUs: int)

  /** A submission asks for its allowance, and later ends, having moved some bytes; `ok` says that its buffers were
      all validated. */
  datatype Event =
    | Check(timeUs: int, totalVram: nat, usedVram: nat, apu: bool)
    | End(bytes: nat, ok: bool)

  function FreeVram(total: nat, used: nat): nat {
    if used >= total then 0 else total - used
  }

  /** 128 MB or an eighth of VRAM is free. */
  predicate Roomy(total: nat, used: nat) {
    FreeVram(total, used) >= FREE_ENOUGH || FreeVram(total, used) >= total / 8
  }

  function Min(a: int, b: int): int { if a < b then a else b }
  function Max(a: int, b: int): int { if a < b then b else a }

  /** The least balance after a check that finds room in VRAM. */
  function Floor(l: nat, e: Event): nat
    requires e.Check?
  {
    if e.apu then 0 else BytesToUs(l, FreeVram(e.totalVram, e.usedVram) / 4)
  }

  /** The balance after an event, with the throttle on. */
  function Apply(l: nat, s: Stats, e: Event): Stats {
    match e
    case Check(t, total, used, apu) =>
      var accum := Min(s.accumUs + (t - s.lastUs), UPPER_BOUND_US);
      Stats(if Roomy(total, used) then Max(Floor(l, e), accum) else accum, t)
    case End(bytes, ok) => if ok then s.(accumUs := s.accumUs - BytesToUs(l, bytes)) else s
  }

  /** The balance after a check. The clock pays in, up to 200 ms. With 128 MB or an eighth of VRAM free, the balance is
      lifted to what moving a quarter of the free VRAM costs, or on an APU to 0. */
  lemma CheckMeans(l: nat, s: Stats, t: int, total: nat, used: nat, apu: bool)
    requires l > 0
    ensures
      var paid := if s.accumUs + (t - s.lastUs) <= 200000 then s.accumUs + (t - s.lastUs) else 200000;
      var floor := if apu || used >= total then 0 else (total - used) / 4 / Pow2(l);
      var roomy := used + 0x800_0000 <= total || used + total / 8 <= total || total < 8;
      Apply(l, s, Check(t, total, used, apu)) == Stats(if roomy && paid < floor then floor else paid, t)
  {
  }

  function Run(l: nat, s: Stats, events: seq<Event>): Stats {
    if events == [] then s else Apply(l, Run(l, s, events[..|events| - 1]), events[|events| - 1])
  }

  /** Microseconds debited in a run. */
  function Spent(l: nat, events: seq<Event>): nat {
    if events == [] then 0 else
    var e := events[|events| - 1];
    Spent(l, events[..|events| - 1]) + if e.End? && e.ok then BytesToUs(l, e.bytes) else 0
  }

  ghost predicate Tight(events: seq<Event>) {
    forall i :: 0 <= i < |events| && events[i].Check? ==> !Roomy(events[i].totalVram, events[i].usedVram)
  }

  /** Credit lost in a check because the balance would pass the upper bound. */
  function Forfeit(s: Stats, e: Event): nat
    requires e.Check?
  {
    Max(0, s.accumUs + (e.timeUs - s.lastUs) - UPPER_BOUND_US)
  }

  /** Credit given in a check because VRAM is roomy, up to the floor. */
  function Grant(l: nat, s: Stats, e: Event): nat
    requires e.Check?
  {
    if Roomy(e.totalVram, e.usedVram) then Max(0, Floor(l, e) - Min(s.accumUs + (e.timeUs - s.lastUs), UPPER_BOUND_US))
    else 0
  }

  function Forfeited(l: nat, s: Stats, events: seq<Event>): nat {
    if events == [] then 0 else
    var rest, e := events[..|events| - 1], events[|events| - 1];
    Forfeited(l, s, rest) + if e.Check? then Forfeit(Run(l, s, rest), e) else 0
  }

  function Granted(l: nat, s: Stats, events: seq<Event>): nat {
    if events == [] then 0 else
    var rest, e := events[..|events| - 1], events[|events| - 1];
    Granted(l, s, rest) + if e.Check? then Grant(l, Run(l, s, rest), e) else 0
  }

  /** The ledger balances: the final balance is the initial one plus the time elapsed and what was granted, less what
      was forfeited and what was spent. */
  lemma {:induction false} LedgerBalances(l: nat, s: Stats, events: seq<Event>)
    ensures var f := Run(l, s, events);
      f.accumUs == s.accumUs + (f.lastUs - s.lastUs)
        + Granted(l, s, events) - Forfeited(l, s, events) - Spent(l, events)
  {
    if events != [] { LedgerBalances(l, s, events[..|events| - 1]); }
  }

  lemma {:induction false} TightNeverGrants(l: nat, s: Stats, events: seq<Event>)
    requires Tight(events)
    ensures Granted(l, s, events) == 0
  {
    if events != [] { TightNeverGrants(l, s, events[..|events| - 1]); }
  }

  /** While VRAM is tight, a run reports no more than the clock and the initial balance pay for. */
  lemma ThrottleLedger(l: nat, s: Stats, events: seq<Event>)
    requires Tight(events)
    ensures var f := Run(l, s, events); Spent(l, events) <= (f.lastUs - s.lastUs) + s.accumUs - f.accumUs
  {
    LedgerBalances(l, s, events);
    TightNeverGrants(l, s, events);
  }

  /** All bytes moved by the submissions of a run. */
  function Moved(events: seq<Event>): nat {
    if events == [] then 0 else
    var e := events[|events| - 1];
    Moved(events[..|events| - 1]) + if e.End? then e.bytes else 0
  }

  /** Bytes moved by submissions that failed, which nobody reports. */
  function Unreported(events: seq<Event>): nat {
    if events == [] then 0 else
    var e := events[|events| - 1];
    Unreported(events[..|events| - 1]) + if e.End? && !e.ok then e.bytes else 0
  }

  /** Submissions that reported. */
  function Reports(events: seq<Event>): nat {
    if events == [] then 0 else
    var e := events[|events| - 1];
    Reports(events[..|events| - 1]) + if e.End? && e.ok then 1 else 0
  }

  lemma {:induction false} ReportsCounted(events: seq<Event>)
    ensures Reports(events) == |set i | 0 <= i < |events| && events[i].End? && events[i].ok|
  {
    if events != [] {
      var n := |events| - 1;
      var rest := events[..n];
      ReportsCounted(rest);
      var before := set i | 0 <= i < |rest| && rest[i].End? && rest[i].ok;
      var now := set i | 0 <= i < |events| && events[i].End? && events[i].ok;
      if events[n].End? && events[n].ok {
        assert now == before + {n};
      } else {
        assert now == before;
      }
    }
  }

  lemma {:induction false} ReportedBytes(l: nat, events: seq<Event>)
    requires l > 0
    ensures Moved(events) <= (Spent(l, events) + Reports(events)) * Pow2(l) + Unreported(events)
  {
    if events != [] {
      var rest, e := events[..|events| - 1], events[|events| - 1];
      ReportedBytes(l, rest);
      if e.End? && e.ok { OneReport(Spent(l, rest) + Reports(rest), e.bytes, Pow2(l)); }
    }
  }

  lemma OneReport(before: nat, bytes: nat, m: nat)
    requires m >= 1
    ensures bytes / m >= 0 && (before + bytes / m + 1) * m >= before * m + bytes
  {
    QuotientNat(bytes, m);
    assert bytes == m * (bytes / m) + bytes % m;
    Distribute(before, bytes / m + 1, m);
  }

  /** While VRAM is tight, all bytes moved in a run are at most what the clock and the initial balance pay for, up to a
      microsecond of rounding a report, plus what failed submissions moved. */
  lemma MovedBytesBounded(l: nat, s: Stats, events: seq<Event>)
    requires l > 0 && Tight(events)
    ensures var f := Run(l, s, events);
      Moved(events) <= (f.lastUs - s.lastUs + s.accumUs - f.accumUs + Reports(events)) * Pow2(l) + Unreported(events)
  {
    var f := Run(l, s, events);
    ReportedBytes(l, events);
    ThrottleLedger(l, s, events);
    var paid := f.lastUs - s.lastUs + s.accumUs - f.accumUs;
    MulMonotone(Spent(l, events) + Reports(events), paid + Reports(events), Pow2(l));
  }

  lemma MulMonotone(a: int, b: int, m: nat)
    requires a <= b
    ensures a * m <= b * m
  {
    Distribute(a, b - a, m);
  }

  /** The unreported remainder is 0 exactly if every failed submission moved nothing. */
  lemma {:induction false} UnreportedZeroIff(events: seq<Event>)
    ensures Unreported(events) == 0 <==>
      forall i :: 0 <= i < |events| && events[i].End? && !events[i].ok ==> events[i].bytes == 0
  {
    if events != [] { UnreportedZeroIff(events[..|events| - 1]); }
  }

  /** A failed submission moves any number of bytes and leaves the balance alone. */
  lemma FailedMoveIsFree(l: nat, s: Stats, bytes: nat)
    ensures Run(l, s, [End(bytes, false)]) == s && Moved([End(bytes, false)]) == bytes
  {
    assert [End(bytes, false)][..0] == [];
  }

  lemma Distribute(a: int, b: int, m: int)
    ensures (a + b) * m == a * m + b * m
  {
  }

  ghost predicate Monotone(s: Stats, events: seq<Event>) {
    && (forall i :: 0 <= i < |events| && events[i].Check? ==> events[i].timeUs >= s.lastUs)
    && forall i, j :: 0 <= i < j < |events| && events[i].Check? && events[j].Check? ==>
         events[i].timeUs <= events[j].timeUs
  }

  /** In debt and with tight VRAM, no run brings the balance above what the clock has repaid. */
  lemma {:induction false} DebtOutlastsClock(l: nat, s: Stats, events: seq<Event>)
    requires Tight(events)
    ensures var f := Run(l, s, events); f.accumUs <= s.accumUs + (f.lastUs - s.lastUs)
  {
    if events != [] { DebtOutlastsClock(l, s, events[..|events| - 1]); }
  }

  /** Until the clock has repaid the debt every check answers 0, whatever is reported meanwhile. */
  lemma DebtMeansZero(l: nat, s: Stats, events: seq<Event>, t: int, total: nat, used: nat, apu: bool)
    requires Tight(events) && !Roomy(total, used) && s.accumUs + (t - s.lastUs) <= 0
    ensures UsToBytes(l, Apply(l, Run(l, s, events), Check(t, total, used, apu)).accumUs) == 0
  {
    DebtOutlastsClock(l, s, events);
  }

  /** Without further reports the debt is over exactly when the clock has repaid it. */
  lemma {:induction false} DebtRepaidExactly(l: nat, s: Stats, events: seq<Event>)
    requires l > 0 && Tight(events) && Monotone(s, events) && s.accumUs <= 0
    requires forall i :: 0 <= i < |events| ==> events[i].Check?
    ensures var f := Run(l, s, events);
      && f.lastUs >= s.lastUs
      && f.accumUs == Min(s.accumUs + (f.lastUs - s.lastUs), UPPER_BOUND_US)
      && (UsToBytes(l, f.accumUs) > 0 <==> f.lastUs - s.lastUs > -s.accumUs)
  {
    if events != [] {
      var rest, e := events[..|events| - 1], events[|events| - 1];
      DebtRepaidExactly(l, s, rest);
      if rest != [] {
        assert rest[|rest| - 1] == events[|rest| - 1];
        assert Run(l, s, rest).lastUs == events[|rest| - 1].timeUs;
      }
    }
    var f := Run(l, s, events);
    if f.accumUs > 0 { assert f.accumUs * Pow2(l) >= 1; }
  }

  class Throttle {
    const log2MaxMBps: nat
    var accumUs: int
    var lastUpdateUs: int

    constructor (log2MaxMBps: nat, now: int)
      ensures this.log2MaxMBps == log2MaxMBps && accumUs == 0 && lastUpdateUs == now
    {
      this.log2MaxMBps := log2MaxMBps;
      accumUs, lastUpdateUs := 0, now;
    }

    function State(): Stats
      reads this
    {
      Stats(accumUs, lastUpdateUs)
    }

    /** `amdgpu_cs_get_threshold_for_moves`. */
    method Threshold(timeUs: int, realVram: nat, pinned: nat, used: nat, apu: bool) returns (maxBytes: nat)
      requires pinned <= realVram
      modifies this
      ensures log2MaxMBps == 0 ==> maxBytes == 0 && State() == old(State())
      ensures log2MaxMBps > 0 ==>
        && State() == Apply(log2MaxMBps, old(State()), Check(timeUs, realVram - pinned, used, apu))
        && maxBytes == (if accumUs > 0 then accumUs * Pow2(log2MaxMBps) else 0)
        && (maxBytes > 0 <==> accumUs > 0)
      ensures log2MaxMBps > 0 ==>
        var total, clock := realVram - pinned, old(accumUs) + (timeUs - old(lastUpdateUs));
        var paid := if clock <= 200000 then clock else 200000;
        var floor := if apu || used >= total then 0 else (total - used) / 4 / Pow2(log2MaxMBps);
        var roomy := used + 0x800_0000 <= total || used + total / 8 <= total || total < 8;
        lastUpdateUs == timeUs && accumUs == if roomy && paid < floor then floor else paid
    {
      if log2MaxMBps == 0 {
        return 0;
      }
      var total := realVram - pinned;
      var free := if used >= total then 0 else total - used;
      var increment := timeUs - lastUpdateUs;
      lastUpdateUs := timeUs;
      accumUs := Min(accumUs + increment, UPPER_BOUND_US);
      if free >= FREE_ENOUGH || free >= total / 8 {
        var minUs := if !apu then BytesToUs(log2MaxMBps, free / 4) else 0;
        accumUs := Max(minUs, accumUs);
      }
      maxBytes := UsToBytes(log2MaxMBps, accumUs);
      if accumUs > 0 { assert accumUs * Pow2(log2MaxMBps) >= 1; }
    }

    /** `amdgpu_cs_report_moved_bytes`. */
    method ReportMoved(bytes: nat)
      modifies this
      ensures State() == Apply(log2MaxMBps, old(State()), End(bytes, true))
      ensures lastUpdateUs == old(lastUpdateUs)
      ensures accumUs == if log2MaxMBps == 0 then old(accumUs) else old(accumUs) - bytes / Pow2(log2MaxMBps)
    {
      accumUs := accumUs - BytesToUs(log2MaxMBps, bytes);
    }
  }
}
