/** Bring-up and teardown of the hardware IP blocks (amdgpu_init and amdgpu_fini in amdgpu_device.c).

Initialisation may fail at any callback; teardown then has to undo exactly what was done. The log records the
callbacks that took effect, in order.
 */
module IpBlocks {

  datatype Type = GMC | SMC | OtherBlock

  datatype Op = SwInit | ScratchInit | HwInit | WbInit | WbFini | ScratchFini | Ungate | HwFini | SwFini

  datatype Event = Event(op: Op, i: nat)

  // ---------------------------------------------------------------------------------------------
  // What teardown does

  /** The callbacks run when block `i` loses its hardware state. */
  function HwDown(types: seq<Type>, i: nat): seq<Event>
    requires i < |types|
  {
    (if types[i] == GMC then [Event(WbFini, i), Event(ScratchFini, i)] else []) + [Event(Ungate, i), Event(HwFini, i)]
  }

  /** The first SMC block with hardware state, or the number of blocks. */
  function FirstSmc(types: seq<Type>, hw: seq<bool>, i: nat): (k: nat)
    requires i <= |types| == |hw|
    ensures i <= k <= |types|
    ensures k < |types| ==> hw[k] && types[k] == SMC
    ensures forall j :: i <= j < k ==> !(hw[j] && types[j] == SMC)
    decreases |types| - i
  {
    if i == |types| || (hw[i] && types[i] == SMC) then i else FirstSmc(types, hw, i + 1)
  }

  /** Blocks `|types| - 1` down to `i` that have hardware state lose it, in that order. */
  function HwPart(types: seq<Type>, hw: seq<bool>, i: nat): seq<Event>
    requires i <= |types| == |hw|
    decreases |types| - i
  {
    if i == |types| then [] else HwPart(types, hw, i + 1) + if hw[i] then HwDown(types, i) else []
  }

  function SwPart(sw: seq<bool>, i: nat): seq<Event>
    requires i <= |sw|
    decreases |sw| - i
  {
    if i == |sw| then [] else SwPart(sw, i + 1) + if sw[i] then [Event(SwFini, i)] else []
  }

  /** The SMC loses its hardware state ahead of the others. */
  function SmcPart(types: seq<Type>, hw: seq<bool>): seq<Event>
    requires |types| == |hw|
  {
    var k := FirstSmc(types, hw, 0);
    if k == |types| then [] else [Event(Ungate, k), Event(HwFini, k)]
  }

  function AfterSmc(types: seq<Type>, hw: seq<bool>): (r: seq<bool>)
    requires |types| == |hw|
    ensures |r| == |hw|
  {
    var k := FirstSmc(types, hw, 0);
    if k == |types| then hw else hw[k := false]
  }

  /** Everything teardown does: the SMC first, then the other hardware, then the software state. */
  function Teardown(types: seq<Type>, hw: seq<bool>, sw: seq<bool>): seq<Event>
    requires |types| == |hw| == |sw|
  {
    SmcPart(types, hw) + HwPart(types, AfterSmc(types, hw), 0) + SwPart(sw, 0)
  }

  // ---------------------------------------------------------------------------------------------
  // What teardown amounts to

  function Bit(b: bool): nat { if b then 1 else 0 }

  /** How often an event is in the log. */
  function Count(log: seq<Event>, e: Event): nat {
    if log == [] then 0 else Count(log[..|log| - 1], e) + Bit(log[|log| - 1] == e)
  }

  lemma {:induction false} CountConcat(a: seq<Event>, b: seq<Event>, e: Event)
    ensures Count(a + b, e) == Count(a, e) + Count(b, e)
    decreases |b|
  {
    if b == [] {
      assert a + b == a;
    } else {
      CountConcat(a, b[..|b| - 1], e);
      assert (a + b)[..|a + b| - 1] == a + b[..|b| - 1];
    }
  }

  lemma CountOne(x: Event, e: Event)
    ensures Count([x], e) == Bit(x == e)
  {
    assert [x][..0] == [];
  }

  lemma CountPair(x: Event, y: Event, e: Event)
    ensures Count([x, y], e) == Bit(x == e) + Bit(y == e)
  {
    CountOne(x, e);
    assert [x, y][..1] == [x];
  }

  lemma {:induction false} CountZero(log: seq<Event>, e: Event)
    ensures Count(log, e) == 0 <==> e !in log
  {
    if log != [] {
      CountZero(log[..|log| - 1], e);
      assert log == log[..|log| - 1] + [log[|log| - 1]];
    }
  }

  /** What a block that loses its hardware state contributes. */
  function Downs(types: seq<Type>, i: nat, e: Event): nat
    requires i < |types|
  {
    Bit(e.i == i && (e.op == Ungate || e.op == HwFini || (types[i] == GMC && (e.op == WbFini || e.op == ScratchFini))))
  }

  lemma HwDownCount(types: seq<Type>, i: nat, e: Event)
    requires i < |types|
    ensures Count(HwDown(types, i), e) == Downs(types, i, e)
  {
    var gmc := if types[i] == GMC then [Event(WbFini, i), Event(ScratchFini, i)] else [];
    CountConcat(gmc, [Event(Ungate, i), Event(HwFini, i)], e);
    CountPair(Event(Ungate, i), Event(HwFini, i), e);
    CountPair(Event(WbFini, i), Event(ScratchFini, i), e);
  }

  lemma OwnCount(types: seq<Type>, hw: seq<bool>, i: nat, e: Event)
    requires i < |types| == |hw|
    ensures Count(if hw[i] then HwDown(types, i) else [], e) == if hw[i] then Downs(types, i, e) else 0
  {
    HwDownCount(types, i, e);
  }

  lemma {:induction false} HwPartCount(types: seq<Type>, hw: seq<bool>, i: nat, e: Event)
    requires i <= |types| == |hw|
    ensures Count(HwPart(types, hw, i), e) == if i <= e.i < |types| && hw[e.i] then Downs(types, e.i, e) else 0
    decreases |types| - i
  {
    if i == |types| {
      assert HwPart(types, hw, i) == [];
    } else {
      var own := if hw[i] then HwDown(types, i) else [];
      HwPartCount(types, hw, i + 1, e);
      OwnCount(types, hw, i, e);
      CountConcat(HwPart(types, hw, i + 1), own, e);
      assert HwPart(types, hw, i) == HwPart(types, hw, i + 1) + own;
      assert e.i != i ==> Downs(types, i, e) == 0;
    }
  }

  lemma {:induction false} SwPartCount(sw: seq<bool>, i: nat, e: Event)
    requires i <= |sw|
    ensures Count(SwPart(sw, i), e) == Bit(e.op == SwFini && i <= e.i < |sw| && sw[e.i])
    decreases |sw| - i
  {
    if i < |sw| {
      SwPartCount(sw, i + 1, e);
      CountConcat(SwPart(sw, i + 1), if sw[i] then [Event(SwFini, i)] else [], e);
      CountOne(Event(SwFini, i), e);
    }
  }

  lemma SmcPartCount(types: seq<Type>, hw: seq<bool>, e: Event)
    requires |types| == |hw|
    ensures var k := FirstSmc(types, hw, 0);
      Count(SmcPart(types, hw), e) == Bit(k < |types| && e.i == k && (e.op == Ungate || e.op == HwFini))
  {
    var k := FirstSmc(types, hw, 0);
    CountPair(Event(Ungate, k), Event(HwFini, k), e);
  }

  /** Taking the SMC first changes nothing in what is run for the hardware. */
  lemma HardwareCount(types: seq<Type>, hw: seq<bool>, e: Event)
    requires |types| == |hw|
    ensures Count(SmcPart(types, hw) + HwPart(types, AfterSmc(types, hw), 0), e) ==
      if e.i < |types| && hw[e.i] then Downs(types, e.i, e) else 0
  {
    CountConcat(SmcPart(types, hw), HwPart(types, AfterSmc(types, hw), 0), e);
    SmcPartCount(types, hw, e);
    HwPartCount(types, AfterSmc(types, hw), 0, e);
  }

  /** Teardown runs every callback that undoes the recorded state exactly once, and no other: `hw_fini` (and the
      ungating) for each block with hardware state, `sw_fini` for each with software state, and the write-back and
      scratch memory with the memory controller's hardware state. */
  lemma TeardownCount(types: seq<Type>, hw: seq<bool>, sw: seq<bool>, e: Event)
    requires |types| == |hw| == |sw|
    ensures Count(Teardown(types, hw, sw), e) == Bit(e.i < |types| &&
      match e.op
      case SwFini => sw[e.i]
      case HwFini | Ungate => hw[e.i]
      case WbFini | ScratchFini => hw[e.i] && types[e.i] == GMC
      case _ => false)
  {
    CountConcat(SmcPart(types, hw) + HwPart(types, AfterSmc(types, hw), 0), SwPart(sw, 0), e);
    HardwareCount(types, hw, e);
    SwPartCount(sw, 0, e);
  }

  // ---------------------------------------------------------------------------------------------
  // In which order

  /** `a` comes before `b` wherever both occur. */
  ghost predicate Before(log: seq<Event>, a: Event, b: Event) {
    forall p, q :: 0 <= p < |log| && 0 <= q < |log| && log[p] == a && log[q] == b ==> p < q
  }

  lemma BeforeAcross(x: seq<Event>, y: seq<Event>, a: Event, b: Event)
    requires Count(y, a) == 0 && Count(x, b) == 0
    ensures Before(x + y, a, b)
  {
    CountZero(y, a);
    CountZero(x, b);
    assert forall p :: |x| <= p < |x + y| ==> (x + y)[p] == y[p - |x|] && (x + y)[p] in y;
    assert forall p :: 0 <= p < |x| ==> (x + y)[p] == x[p] && (x + y)[p] in x;
  }

  lemma BeforeLeft(x: seq<Event>, y: seq<Event>, a: Event, b: Event)
    requires Before(x, a, b) && Count(y, a) == 0 && Count(y, b) == 0
    ensures Before(x + y, a, b)
  {
    CountZero(y, a);
    CountZero(y, b);
    assert forall p :: |x| <= p < |x + y| ==> (x + y)[p] == y[p - |x|] && (x + y)[p] in y;
  }

  lemma BeforeRight(x: seq<Event>, y: seq<Event>, a: Event, b: Event)
    requires Before(y, a, b) && Count(x, a) == 0 && Count(x, b) == 0
    ensures Before(x + y, a, b)
  {
    CountZero(x, a);
    CountZero(x, b);
    assert forall p :: 0 <= p < |x| ==> (x + y)[p] == x[p] && (x + y)[p] in x;
    assert forall p :: |x| <= p < |x + y| ==> (x + y)[p] == y[p - |x|];
  }

  /** Hardware state is taken down in reverse order. */
  lemma {:induction false} HwPartReversed(types: seq<Type>, hw: seq<bool>, i: nat, a: nat, b: nat)
    requires i <= |types| == |hw| && a < b
    ensures Before(HwPart(types, hw, i), Event(HwFini, b), Event(HwFini, a))
    decreases |types| - i
  {
    if i < |types| {
      var own := if hw[i] then HwDown(types, i) else [];
      HwDownCount(types, i, Event(HwFini, b));
      HwPartCount(types, hw, i + 1, Event(HwFini, a));
      if a > i {
        HwPartReversed(types, hw, i + 1, a, b);
        HwDownCount(types, i, Event(HwFini, a));
        BeforeLeft(HwPart(types, hw, i + 1), own, Event(HwFini, b), Event(HwFini, a));
      } else if a == i {
        BeforeAcross(HwPart(types, hw, i + 1), own, Event(HwFini, b), Event(HwFini, a));
      } else {
        HwPartCount(types, hw, i, Event(HwFini, a));
        CountZero(HwPart(types, hw, i), Event(HwFini, a));
      }
    }
  }

  /** Every `hw_fini` comes before every `sw_fini`. */
  lemma HardwareBeforeSoftware(types: seq<Type>, hw: seq<bool>, sw: seq<bool>, a: nat, b: nat)
    requires |types| == |hw| == |sw|
    ensures Before(Teardown(types, hw, sw), Event(HwFini, a), Event(SwFini, b))
  {
    var smc, mid := SmcPart(types, hw), HwPart(types, AfterSmc(types, hw), 0);
    CountConcat(smc, mid, Event(SwFini, b));
    SmcPartCount(types, hw, Event(SwFini, b));
    HwPartCount(types, AfterSmc(types, hw), 0, Event(SwFini, b));
    SwPartCount(sw, 0, Event(HwFini, a));
    BeforeAcross(smc + mid, SwPart(sw, 0), Event(HwFini, a), Event(SwFini, b));
  }

  /** The SMC goes first, and the others follow in reverse order. */
  lemma TeardownOrder(types: seq<Type>, hw: seq<bool>, sw: seq<bool>, a: nat, b: nat)
    requires |types| == |hw| == |sw|
    requires a != b && a != FirstSmc(types, hw, 0) && (b == FirstSmc(types, hw, 0) || a < b)
    ensures Before(Teardown(types, hw, sw), Event(HwFini, b), Event(HwFini, a))
  {
    var first, second := Event(HwFini, b), Event(HwFini, a);
    var smc, mid := SmcPart(types, hw), HwPart(types, AfterSmc(types, hw), 0);
    SmcPartCount(types, hw, second);
    if b == FirstSmc(types, hw, 0) {
      HwPartCount(types, AfterSmc(types, hw), 0, first);
      BeforeAcross(smc, mid, first, second);
    } else {
      SmcPartCount(types, hw, first);
      HwPartReversed(types, AfterSmc(types, hw), 0, a, b);
      BeforeRight(smc, mid, first, second);
    }
    SwPartCount(sw, 0, first);
    SwPartCount(sw, 0, second);
    BeforeLeft(smc + mid, SwPart(sw, 0), first, second);
  }

  /** The place of a callback in teardown: those of the SMC; then the other blocks, from the last, each giving up
      write-back and scratch memory and being ungated before its `hw_fini`; then `sw_fini` from the last block. */
  function DownRank(n: nat, smc: nat, e: Event): int {
    match e.op
    case SwFini => 2 + 4 * n + (n - 1 - e.i)
    case HwFini => if e.i == smc then 1 else 2 + 4 * (n - 1 - e.i) + 3
    case Ungate => if e.i == smc then 0 else 2 + 4 * (n - 1 - e.i) + 2
    case ScratchFini => 2 + 4 * (n - 1 - e.i) + 1
    case _ => 2 + 4 * (n - 1 - e.i)
  }

  ghost predicate DownRanked(log: seq<Event>, n: nat, smc: nat) {
    forall p, q :: 0 <= p < q < |log| ==> DownRank(n, smc, log[p]) < DownRank(n, smc, log[q])
  }

  /** All ranks are in `lo .. hi - 1`. */
  ghost predicate DownWithin(log: seq<Event>, n: nat, smc: nat, lo: int, hi: int) {
    forall p :: 0 <= p < |log| ==> lo <= DownRank(n, smc, log[p]) < hi
  }

  lemma RankedConcat(x: seq<Event>, y: seq<Event>, n: nat, smc: nat, lo: int, mid: int, hi: int)
    requires DownRanked(x, n, smc) && DownRanked(y, n, smc) && lo <= mid <= hi
    requires DownWithin(x, n, smc, lo, mid) && DownWithin(y, n, smc, mid, hi)
    ensures DownRanked(x + y, n, smc) && DownWithin(x + y, n, smc, lo, hi)
  {
  }

  lemma ThreeRanked(x: seq<Event>, y: seq<Event>, z: seq<Event>, n: nat, smc: nat)
    requires DownRanked(x, n, smc) && DownRanked(y, n, smc) && DownRanked(z, n, smc)
    requires DownWithin(x, n, smc, 0, 2) && DownWithin(y, n, smc, 2, 2 + 4 * n)
    requires DownWithin(z, n, smc, 2 + 4 * n, 2 + 4 * n + n)
    ensures DownRanked(x + y + z, n, smc)
  {
    RankedConcat(x, y, n, smc, 0, 2, 2 + 4 * n);
    RankedConcat(x + y, z, n, smc, 0, 2 + 4 * n, 2 + 4 * n + n);
  }

  lemma HwDownRanked(types: seq<Type>, i: nat, smc: nat)
    requires i < |types| && i != smc
    ensures var n := |types|; var down := HwDown(types, i);
      DownRanked(down, n, smc) && DownWithin(down, n, smc, 2 + 4 * (n - 1 - i), 2 + 4 * (n - i))
  {
  }

  lemma {:induction false} HwPartRanked(types: seq<Type>, hw: seq<bool>, i: nat, smc: nat)
    requires i <= |types| == |hw| && (smc < |hw| ==> !hw[smc])
    ensures var n := |types|; var part := HwPart(types, hw, i);
      DownRanked(part, n, smc) && DownWithin(part, n, smc, 2, 2 + 4 * (n - i))
    decreases |types| - i
  {
    if i < |types| {
      var n := |types|;
      HwPartRanked(types, hw, i + 1, smc);
      if hw[i] {
        HwDownRanked(types, i, smc);
        RankedConcat(HwPart(types, hw, i + 1), HwDown(types, i), n, smc, 2, 2 + 4 * (n - 1 - i), 2 + 4 * (n - i));
      }
    }
  }

  lemma {:induction false} SwPartRanked(sw: seq<bool>, i: nat, smc: nat)
    requires i <= |sw|
    ensures var n := |sw|; var part := SwPart(sw, i);
      DownRanked(part, n, smc) && DownWithin(part, n, smc, 2 + 4 * n, 2 + 4 * n + (n - i))
    decreases |sw| - i
  {
    if i < |sw| {
      var n := |sw|;
      SwPartRanked(sw, i + 1, smc);
      var own := if sw[i] then [Event(SwFini, i)] else [];
      RankedConcat(SwPart(sw, i + 1), own, n, smc, 2 + 4 * n, 2 + 4 * n + (n - 1 - i), 2 + 4 * n + (n - i));
    }
  }

  lemma SmcPartRanked(types: seq<Type>, hw: seq<bool>)
    requires |types| == |hw|
    ensures var n, smc := |types|, FirstSmc(types, hw, 0);
      DownRanked(SmcPart(types, hw), n, smc) && DownWithin(SmcPart(types, hw), n, smc, 0, 2)
  {
  }

  /** The callbacks of teardown come in exactly that order. */
  lemma TeardownRanked(types: seq<Type>, hw: seq<bool>, sw: seq<bool>)
    requires |types| == |hw| == |sw|
    ensures DownRanked(Teardown(types, hw, sw), |types|, FirstSmc(types, hw, 0))
  {
    var n, smc := |types|, FirstSmc(types, hw, 0);
    var smcPart, hwPart, swPart := SmcPart(types, hw), HwPart(types, AfterSmc(types, hw), 0), SwPart(sw, 0);
    SmcPartRanked(types, hw);
    HwPartRanked(types, AfterSmc(types, hw), 0, smc);
    SwPartRanked(sw, 0, smc);
    ThreeRanked(smcPart, hwPart, swPart, n, smc);
  }

  // ---------------------------------------------------------------------------------------------
  // What bring-up does

  /** The place of a callback in bring-up: block by block, the memory controller with its hardware; then the hardware of
      the others. */
  function UpRank(types: seq<Type>, e: Event): int {
    match e.op
    case SwInit => 4 * e.i
    case ScratchInit => 4 * e.i + 1
    case HwInit => if e.i < |types| && types[e.i] == GMC then 4 * e.i + 2 else 4 * |types| + e.i
    case _ => 4 * e.i + 3
  }

  /** The log is in that order, and all ranks are below `hi`. */
  ghost predicate UpRanked(log: seq<Event>, types: seq<Type>, hi: int) {
    && (forall p, q :: 0 <= p < q < |log| ==> UpRank(types, log[p]) < UpRank(types, log[q]))
    && (forall p :: 0 <= p < |log| ==> UpRank(types, log[p]) < hi)
  }

  /** Results of the callbacks of one block; 0 is success. */
  datatype Results = Results(sw: int, scratch: int, hw: int, wb: int)

  /** The first pass succeeds at this block. */
  predicate EarlyOk(t: Type, r: Results) {
    r.sw == 0 && (t == GMC ==> r.scratch == 0 && r.hw == 0 && r.wb == 0)
  }

  /** The first block at which the first pass fails, or the number of blocks. */
  function FirstFail(types: seq<Type>, valid: seq<bool>, res: seq<Results>, i: nat): (k: nat)
    requires i <= |types| == |valid| == |res|
    ensures i <= k <= |types|
    ensures k < |types| ==> valid[k] && !EarlyOk(types[k], res[k])
    ensures forall j :: i <= j < k && valid[j] ==> EarlyOk(types[j], res[j])
    decreases |types| - i
  {
    if i == |types| || (valid[i] && !EarlyOk(types[i], res[i])) then i else FirstFail(types, valid, res, i + 1)
  }

  /** The memory controller that failed after its scratch memory was there, if any: its status never says so. */
  function Stuck(types: seq<Type>, valid: seq<bool>, res: seq<Results>): (k: nat)
    requires |types| == |valid| == |res|
    ensures k <= |types|
  {
    var k := FirstFail(types, valid, res, 0);
    if k < |types| && res[k].sw == 0 && res[k].scratch == 0 then k else |types|
  }

  /** How often an event is due in the bring-up log, going by the status flags. */
  function Due(types: seq<Type>, res: seq<Results>, sw: seq<bool>, hw: seq<bool>, stuck: nat, e: Event): nat
    requires |types| == |res| == |sw| == |hw|
  {
    if e.i >= |types| then 0 else
    match e.op
    case SwInit => Bit(sw[e.i])
    case HwInit => Bit(hw[e.i] || (e.i == stuck && res[e.i].hw == 0))
    case ScratchInit => Bit((hw[e.i] && types[e.i] == GMC) || e.i == stuck)
    case WbInit => Bit(hw[e.i] && types[e.i] == GMC)
    case _ => 0
  }

  ghost predicate Recorded(log: seq<Event>, types: seq<Type>, res: seq<Results>,
                           sw: seq<bool>, hw: seq<bool>, stuck: nat)
    requires |types| == |res| == |sw| == |hw|
  {
    forall e :: Count(log, e) == Due(types, res, sw, hw, stuck, e)
  }

  lemma RecordedSw(log: seq<Event>, types: seq<Type>, res: seq<Results>, sw: seq<bool>, hw: seq<bool>, i: nat)
    requires |types| == |res| == |sw| == |hw| && i < |types| && !sw[i]
    requires Recorded(log, types, res, sw, hw, |types|)
    ensures Recorded(log + [Event(SwInit, i)], types, res, sw[i := true], hw, |types|)
  {
    forall e
      ensures Count(log + [Event(SwInit, i)], e) == Due(types, res, sw[i := true], hw, |types|, e)
    {
      CountConcat(log, [Event(SwInit, i)], e);
      CountOne(Event(SwInit, i), e);
    }
  }

  lemma RecordedHw(log: seq<Event>, types: seq<Type>, res: seq<Results>, sw: seq<bool>, hw: seq<bool>, i: nat)
    requires |types| == |res| == |sw| == |hw| && i < |types| && !hw[i] && types[i] != GMC
    requires Recorded(log, types, res, sw, hw, |types|)
    ensures Recorded(log + [Event(HwInit, i)], types, res, sw, hw[i := true], |types|)
  {
    forall e
      ensures Count(log + [Event(HwInit, i)], e) == Due(types, res, sw, hw[i := true], |types|, e)
    {
      CountConcat(log, [Event(HwInit, i)], e);
      CountOne(Event(HwInit, i), e);
    }
  }

  /** The memory controller once its scratch memory is there. */
  lemma RecordedScratch(log: seq<Event>, types: seq<Type>, res: seq<Results>, sw: seq<bool>, hw: seq<bool>, i: nat)
    requires |types| == |res| == |sw| == |hw| && i < |types| && !hw[i] && types[i] == GMC
    requires Recorded(log, types, res, sw, hw, |types|)
    ensures var up := log + [Event(ScratchInit, i)];
      && (res[i].hw != 0 ==> Recorded(up, types, res, sw, hw, i))
      && (res[i].hw == 0 ==> Recorded(up + [Event(HwInit, i)], types, res, sw, hw, i))
  {
    var up := log + [Event(ScratchInit, i)];
    forall e
      ensures Count(up, e) == Count(log, e) + Bit(e == Event(ScratchInit, i))
      ensures Count(up + [Event(HwInit, i)], e) == Count(up, e) + Bit(e == Event(HwInit, i))
    {
      CountConcat(log, [Event(ScratchInit, i)], e);
      CountOne(Event(ScratchInit, i), e);
      CountConcat(up, [Event(HwInit, i)], e);
      CountOne(Event(HwInit, i), e);
    }
  }

  lemma RecordedWb(log: seq<Event>, types: seq<Type>, res: seq<Results>, sw: seq<bool>, hw: seq<bool>, i: nat)
    requires |types| == |res| == |sw| == |hw| && i < |types| && !hw[i] && types[i] == GMC && res[i].hw == 0
    requires Recorded(log, types, res, sw, hw, i)
    ensures Recorded(log + [Event(WbInit, i)], types, res, sw, hw[i := true], |types|)
  {
    forall e
      ensures Count(log + [Event(WbInit, i)], e) == Due(types, res, sw, hw[i := true], |types|, e)
    {
      CountConcat(log, [Event(WbInit, i)], e);
      CountOne(Event(WbInit, i), e);
    }
  }

  lemma UpRankedNext(log: seq<Event>, types: seq<Type>, hi: int, e: Event, hi': int)
    requires UpRanked(log, types, hi) && hi <= UpRank(types, e) < hi'
    ensures UpRanked(log + [e], types, hi')
  {
  }

  class Device {
    const types: seq<Type>
    var valid: seq<bool>
    var sw: seq<bool>
    var hw: seq<bool>
    var log: seq<Event>

    ghost predicate Valid()
      reads this
    {
      |types| == |valid| == |sw| == |hw|
    }

    /** The device after `amdgpu_early_init`. */
    constructor (types: seq<Type>, valid: seq<bool>)
      requires |types| == |valid|
      ensures Valid() && this.types == types && this.valid == valid && log == []
      ensures forall b :: 0 <= b < |types| ==> !sw[b] && !hw[b]
    {
      this.types, this.valid, log := types, valid, [];
      sw, hw := seq(|types|, _ => false), seq(|types|, _ => false);
    }

    /** The part of the first pass only the memory controller has. */
    method EarlyHw(i: nat, res: seq<Results>) returns (r: int)
      requires Valid() && |res| == |types| && i < |types| && types[i] == GMC && !hw[i]
      requires Recorded(log, types, res, sw, hw, |types|)
      modifies `hw, `log
      ensures Valid()
      ensures r == if res[i].scratch != 0 then res[i].scratch else if res[i].hw != 0 then res[i].hw else res[i].wb
      ensures hw == if r == 0 then old(hw)[i := true] else old(hw)
      ensures Recorded(log, types, res, sw, hw, if r != 0 && res[i].scratch == 0 then i else |types|)
      ensures UpRanked(old(log), types, 4 * i + 1) ==> UpRanked(log, types, 4 * i + 4)
    {
      r := res[i].scratch;
      if r != 0 { return; }
      RecordedScratch(log, types, res, sw, hw, i);
      log := log + [Event(ScratchInit, i)];
      r := res[i].hw;
      if r != 0 { return; }
      log := log + [Event(HwInit, i)];
      r := res[i].wb;
      if r != 0 { return; }
      RecordedWb(log, types, res, sw, hw, i);
      log := log + [Event(WbInit, i)];
      hw := hw[i := true];
    }

    /** One valid block in the first pass. */
    method EarlyBlock(i: nat, res: seq<Results>) returns (r: int)
      requires Valid() && |res| == |types| && i < |types| && !sw[i] && !hw[i]
      requires Recorded(log, types, res, sw, hw, |types|) && UpRanked(log, types, 4 * i)
      modifies `sw, `hw, `log
      ensures Valid() && (r == 0 <==> EarlyOk(types[i], res[i]))
      ensures sw == if res[i].sw == 0 then old(sw)[i := true] else old(sw)
      ensures hw == if r == 0 && types[i] == GMC then old(hw)[i := true] else old(hw)
      ensures Recorded(log, types, res, sw, hw, if r != 0 && res[i].sw == 0 && res[i].scratch == 0 then i else |types|)
      ensures UpRanked(log, types, 4 * i + 4)
    {
      r := res[i].sw;
      if r != 0 { return; }
      RecordedSw(log, types, res, sw, hw, i);
      UpRankedNext(log, types, 4 * i, Event(SwInit, i), 4 * i + 1);
      log, sw := log + [Event(SwInit, i)], sw[i := true];
      if types[i] == GMC {
        r := EarlyHw(i, res);
      }
    }

    /** The first pass of `amdgpu_init`. */
    method EarlyPass(res: seq<Results>) returns (r: int)
      requires Valid() && |res| == |types| && log == []
      requires forall b :: 0 <= b < |types| ==> !sw[b] && !hw[b]
      modifies `sw, `hw, `log
      ensures Valid()
      ensures r == 0 <==> FirstFail(types, valid, res, 0) == |types|
      ensures var k := FirstFail(types, valid, res, 0); forall b :: 0 <= b < |types| ==>
        && (sw[b] <==> valid[b] && (b < k || (b == k && res[b].sw == 0)))
        && (hw[b] <==> valid[b] && b < k && types[b] == GMC)
      ensures r == 0 ==> sw == valid && forall b :: 0 <= b < |types| && valid[b] && types[b] == GMC ==> hw[b]
      ensures Recorded(log, types, res, sw, hw, Stuck(types, valid, res))
      ensures Stuck(types, valid, res) < |types| ==> !hw[Stuck(types, valid, res)]
      ensures UpRanked(log, types, 4 * |types|)
    {
      assert Recorded(log, types, res, sw, hw, |types|);
      r := 0;
      var i := 0;
      while i < |types|
        invariant Valid() && i <= |types| && r == 0
        invariant FirstFail(types, valid, res, 0) == FirstFail(types, valid, res, i)
        invariant forall b :: 0 <= b < i ==> sw[b] == valid[b] && hw[b] == (valid[b] && types[b] == GMC)
        invariant forall b :: i <= b < |types| ==> !sw[b] && !hw[b]
        invariant Recorded(log, types, res, sw, hw, |types|)
        invariant UpRanked(log, types, 4 * i)
      {
        if valid[i] {
          r := EarlyBlock(i, res);
          if r != 0 { return; }
        }
        i := i + 1;
      }
    }

    /** The second pass of `amdgpu_init`, up to block `late`; `more` is what it adds to the log. */
    method LatePass(res: seq<Results>) returns (r: int, ghost more: seq<Event>, ghost late: nat)
      requires Valid() && |res| == |types| && Recorded(log, types, res, sw, hw, |types|)
      requires forall b :: 0 <= b < |types| ==> (hw[b] <==> sw[b] && types[b] == GMC)
      modifies `hw, `log
      ensures Valid() && log == old(log) + more && (forall a :: Count(more, Event(SwInit, a)) == 0)
      ensures late <= |types| && (r == 0 <==> late == |types|)
      ensures forall b :: 0 <= b < late ==> hw[b] == sw[b] && (sw[b] && types[b] != GMC ==> res[b].hw == 0)
      ensures forall b :: late <= b < |types| ==> hw[b] == old(hw)[b]
      ensures late < |types| ==> sw[late] && types[late] != GMC && r == res[late].hw
      ensures r == 0 ==> hw == sw
      ensures Recorded(log, types, res, sw, hw, |types|)
      ensures UpRanked(old(log), types, 4 * |types|) ==> UpRanked(log, types, 5 * |types|)
    {
      r, more, late := 0, [], 0;
      var i := 0;
      while i < |types|
        invariant Valid() && i <= |types| && r == 0 && late == i
        invariant log == old(log) + more && (forall a :: Count(more, Event(SwInit, a)) == 0)
        invariant forall b :: 0 <= b < i ==> hw[b] == sw[b] && (sw[b] && types[b] != GMC ==> res[b].hw == 0)
        invariant forall b :: i <= b < |types| ==> hw[b] == old(hw)[b]
        invariant Recorded(log, types, res, sw, hw, |types|)
        invariant UpRanked(old(log), types, 4 * |types|) ==> UpRanked(log, types, 4 * |types| + i)
      {
        if sw[i] && types[i] != GMC {
          r := res[i].hw;
          if r != 0 { return; }
          RecordedHw(log, types, res, sw, hw, i);
          NoSwInit(more, i);
          log, more := log + [Event(HwInit, i)], more + [Event(HwInit, i)];
          hw := hw[i := true];
        }
        i := i + 1;
        late := i;
      }
    }

    /** `amdgpu_init`: it succeeds exactly if every callback it reaches does, and then every valid block is up. The log
        holds what the status flags say, plus, if a memory controller got stuck half way, what the flags do not say.
        No block but the memory controller touches hardware before all software state is there. */
    method Init(res: seq<Results>) returns (r: int)
      requires Valid() && |res| == |types| && log == []
      requires forall b :: 0 <= b < |types| ==> !sw[b] && !hw[b]
      modifies `sw, `hw, `log
      ensures Valid() && Recorded(log, types, res, sw, hw, Stuck(types, valid, res))
      ensures Stuck(types, valid, res) < |types| ==> r != 0 && !hw[Stuck(types, valid, res)]
      ensures r == 0 <==> forall b :: 0 <= b < |types| && valid[b] ==>
        res[b].sw == 0 && res[b].hw == 0 && (types[b] == GMC ==> res[b].scratch == 0 && res[b].wb == 0)
      ensures r == 0 ==> sw == valid && hw == valid
      ensures forall b :: 0 <= b < |types| ==> (sw[b] ==> valid[b]) && (hw[b] ==> sw[b])
      ensures forall a, b: nat :: b < |types| && types[b] != GMC ==> Before(log, Event(SwInit, a), Event(HwInit, b))
      ensures UpRanked(log, types, 5 * |types|)
    {
      r := EarlyPass(res);
      ghost var early := log;
      forall b: nat | b < |types| && types[b] != GMC
        ensures Count(early, Event(HwInit, b)) == 0
      {
      }
      ghost var more := [];
      if r == 0 {
        ghost var late;
        r, more, late := LatePass(res);
      }
      assert log == early + more;
      forall a, b: nat | b < |types| && types[b] != GMC
        ensures Before(log, Event(SwInit, a), Event(HwInit, b))
      {
        BeforeAcross(early, more, Event(SwInit, a), Event(HwInit, b));
      }
    }

    /** The first loop of `amdgpu_fini`. */
    method FiniSmc(ungate: seq<int>) returns (r: int)
      requires Valid() && |ungate| == |types|
      modifies `hw, `log
      ensures Valid()
      ensures r == 0 ==> hw == AfterSmc(types, old(hw)) && log == old(log) + SmcPart(types, old(hw))
      ensures r == 0 ==> (Jammed(hw, ungate) <==> Jammed(old(hw), ungate))
      ensures r != 0 ==> hw == old(hw) && log == old(log) && Jammed(hw, ungate)
    {
      r := 0;
      var i := 0;
      while i < |types|
        invariant i <= |types| && r == 0 && hw == old(hw) && log == old(log)
        invariant FirstSmc(types, hw, 0) == FirstSmc(types, hw, i)
      {
        if hw[i] && types[i] == SMC {
          r := ungate[i];
          if r != 0 { return; }
          log := log + [Event(Ungate, i), Event(HwFini, i)];
          hw := hw[i := false];
          assert forall b :: 0 <= b < |hw| && b != i ==> hw[b] == old(hw)[b];
          return;
        }
        i := i + 1;
      }
      assert log == old(log) + [];
    }

    /** The second loop. */
    method FiniHw(ungate: seq<int>) returns (r: int)
      requires Valid() && |ungate| == |types|
      modifies `hw, `log
      ensures Valid() && (r != 0 <==> Jammed(old(hw), ungate))
      ensures r == 0 ==> (forall b :: 0 <= b < |types| ==> !hw[b]) && log == old(log) + HwPart(types, old(hw), 0)
      ensures r != 0 ==> old(log) <= log <= old(log) + HwPart(types, old(hw), 0)
    {
      r := 0;
      var i := |types|;
      while i > 0
        invariant Valid() && 0 <= i <= |types| && r == 0
        invariant forall b :: 0 <= b < i ==> hw[b] == old(hw)[b]
        invariant forall b :: i <= b < |types| ==> !hw[b] && (old(hw)[b] ==> ungate[b] == 0)
        invariant log == old(log) + HwPart(types, old(hw), i)
      {
        i := i - 1;
        if hw[i] {
          ghost var before := log;
          if types[i] == GMC {
            log := log + [Event(WbFini, i), Event(ScratchFini, i)];
          }
          r := ungate[i];
          if r != 0 {
            ghost var part := if types[i] == GMC then [Event(WbFini, i), Event(ScratchFini, i)] else [];
            HwPartBroken(types, old(hw), i, part);
            assert log == old(log) + (HwPart(types, old(hw), i + 1) + part);
            return;
          }
          log := log + [Event(Ungate, i), Event(HwFini, i)];
          assert log == before + HwDown(types, i);
          hw := hw[i := false];
        }
        assert log == old(log) + HwPart(types, old(hw), i);
      }
    }

    /** The third loop. */
    method FiniSw()
      requires Valid()
      modifies `valid, `sw, `log
      ensures Valid() && log == old(log) + SwPart(old(sw), 0)
      ensures forall b :: 0 <= b < |types| ==> !sw[b] && (valid[b] <==> old(valid)[b] && !old(sw)[b])
    {
      var i := |types|;
      while i > 0
        invariant Valid() && 0 <= i <= |types|
        invariant forall b :: 0 <= b < i ==> sw[b] == old(sw)[b] && valid[b] == old(valid)[b]
        invariant forall b :: i <= b < |types| ==> !sw[b] && (valid[b] <==> old(valid)[b] && !old(sw)[b])
        invariant log == old(log) + SwPart(old(sw), i)
      {
        i := i - 1;
        if sw[i] {
          log := log + [Event(SwFini, i)];
          sw, valid := sw[i := false], valid[i := false];
        }
        assert log == old(log) + SwPart(old(sw), i);
      }
    }

    /** `amdgpu_fini`: it takes everything down unless some block with hardware state cannot be ungated; then it stops
        there, part of the hardware teardown done, and leaves all software state. */
    method Fini(ungate: seq<int>) returns (r: int)
      requires Valid() && |ungate| == |types|
      modifies `valid, `sw, `hw, `log
      ensures Valid() && (r != 0 <==> Jammed(old(hw), ungate))
      ensures r == 0 ==> log == old(log) + Teardown(types, old(hw), old(sw))
      ensures r == 0 ==> forall b :: 0 <= b < |types| ==> !sw[b] && !hw[b]
      ensures r != 0 ==> sw == old(sw) && valid == old(valid)
      ensures r != 0 ==>
        old(log) <= log <= old(log) + SmcPart(types, old(hw)) + HwPart(types, AfterSmc(types, old(hw)), 0)
    {
      r := FiniSmc(ungate);
      if r != 0 { return; }
      ghost var after := log;
      r := FiniHw(ungate);
      if r != 0 { return; }
      FiniSw();
      Regroup(old(log), SmcPart(types, old(hw)), HwPart(types, AfterSmc(types, old(hw)), 0), SwPart(old(sw), 0));
    }

    /** The life of a device that comes up or not, and is then torn down without an ungating failure: every callback
        that took effect is undone, except those of a memory controller that got stuck half way. `hwUp` and `swUp` say
        which blocks had come up, and the first `came` callbacks are those of bring-up. */
    method Lifecycle(res: seq<Results>, ungate: seq<int>) 
        returns (ghost hwUp: seq<bool>, ghost swUp: seq<bool>, ghost came: nat)
      requires Valid() && |res| == |types| == |ungate| && log == []
      requires forall b :: 0 <= b < |types| ==> !sw[b] && !hw[b] && ungate[b] == 0
      modifies `valid, `sw, `hw, `log
      ensures Valid() && forall b :: 0 <= b < |types| ==> !sw[b] && !hw[b]
      ensures AllButStuckUndone(log, types, res, Stuck(types, old(valid), res)) && InOrder(log)
      ensures |hwUp| == |swUp| == |types| && Once(log, hwUp, swUp) && HardwareOrder(log, types, hwUp)
      ensures came <= |log| && UpRanked(log[..came], types, 5 * |types|)
      ensures DownRanked(log[came..], |types|, FirstSmc(types, hwUp, 0))
    {
      var r := Init(res);
      ghost var up, stuck := log, Stuck(types, valid, res);
      hwUp, swUp, came := hw, sw, |log|;
      r := Fini(ungate);
      assert log[..came] == up && log[came..] == Teardown(types, hwUp, swUp);
      TeardownRanked(types, hwUp, swUp);
      LifeUndone(up, types, res, swUp, hwUp, stuck);
      LifeOrder(up, types, res, swUp, hwUp, stuck);
      LifeOnce(up, types, res, swUp, hwUp, stuck);
      LifeHardwareOrder(up, types, res, swUp, hwUp, stuck);
    }
  }

  /** `hw_fini` was run exactly once for the blocks that had hardware state and never for another, and `sw_fini` for
      those that had software state. */
  ghost predicate Once(log: seq<Event>, hw: seq<bool>, sw: seq<bool>) {
    forall b: nat ::
      && Count(log, Event(HwFini, b)) == Bit(b < |hw| && hw[b])
      && Count(log, Event(SwFini, b)) == Bit(b < |sw| && sw[b])
  }

  /** The SMC lost its hardware state first, and the other blocks in reverse order. */
  ghost predicate HardwareOrder(log: seq<Event>, types: seq<Type>, hw: seq<bool>)
    requires |types| == |hw|
  {
    forall a: nat, b: nat :: Ahead(types, hw, b, a) ==> Before(log, Event(HwFini, b), Event(HwFini, a))
  }

  predicate Ahead(types: seq<Type>, hw: seq<bool>, b: nat, a: nat)
    requires |types| == |hw|
  {
    a != b && a != FirstSmc(types, hw, 0) && (b == FirstSmc(types, hw, 0) || a < b)
  }

  lemma LifeOnce(up: seq<Event>, types: seq<Type>, res: seq<Results>, sw: seq<bool>, hw: seq<bool>, stuck: nat)
    requires |types| == |res| == |sw| == |hw| && Recorded(up, types, res, sw, hw, stuck)
    ensures Once(up + Teardown(types, hw, sw), hw, sw)
  {
    var down := Teardown(types, hw, sw);
    forall b: nat
      ensures Count(up + down, Event(HwFini, b)) == Bit(b < |hw| && hw[b])
      ensures Count(up + down, Event(SwFini, b)) == Bit(b < |sw| && sw[b])
    {
      CountConcat(up, down, Event(HwFini, b));
      CountConcat(up, down, Event(SwFini, b));
      TeardownCount(types, hw, sw, Event(HwFini, b));
      TeardownCount(types, hw, sw, Event(SwFini, b));
    }
  }

  lemma LifeHardwareOrder(up: seq<Event>, types: seq<Type>, res: seq<Results>, sw: seq<bool>, hw: seq<bool>, stuck: nat)
    requires |types| == |res| == |sw| == |hw| && Recorded(up, types, res, sw, hw, stuck)
    ensures HardwareOrder(up + Teardown(types, hw, sw), types, hw)
  {
    var down := Teardown(types, hw, sw);
    forall a: nat, b: nat | Ahead(types, hw, b, a)
      ensures Before(up + down, Event(HwFini, b), Event(HwFini, a))
    {
      TeardownOrder(types, hw, sw, a, b);
      BeforeRight(up, down, Event(HwFini, b), Event(HwFini, a));
    }
  }

  /** Every callback that took effect has been undone, except those of the stuck memory controller. */
  ghost predicate AllButStuckUndone(log: seq<Event>, types: seq<Type>, res: seq<Results>, stuck: nat)
    requires |types| == |res| && stuck <= |types|
  {
    forall b: nat ::
      && Undone(log, SwInit, SwFini, b) && Undone(log, WbInit, WbFini, b)
      && (Undone(log, ScratchInit, ScratchFini, b) <==> b != stuck || stuck == |types|)
      && (Undone(log, HwInit, HwFini, b) <==> b != stuck || stuck == |types| || res[b].hw != 0)
  }

  /** All software state comes up before any goes, and that is after all hardware state has gone. */
  ghost predicate InOrder(log: seq<Event>) {
    forall a: nat, b: nat ::
      Before(log, Event(HwFini, a), Event(SwFini, b)) && Before(log, Event(SwInit, a), Event(SwFini, b))
  }

  lemma LifeUndone(up: seq<Event>, types: seq<Type>, res: seq<Results>, sw: seq<bool>, hw: seq<bool>, stuck: nat)
    requires |types| == |res| == |sw| == |hw| && stuck <= |types| && Recorded(up, types, res, sw, hw, stuck)
    requires stuck < |types| ==> !hw[stuck]
    ensures AllButStuckUndone(up + Teardown(types, hw, sw), types, res, stuck)
  {
    forall b: nat {
      AllUndone(up, types, res, sw, hw, stuck, b);
    }
  }

  /** Callback `up` of block `b` was run as often as callback `down`. */
  ghost predicate Undone(log: seq<Event>, up: Op, down: Op, b: nat) {
    Count(log, Event(up, b)) == Count(log, Event(down, b))
  }

  lemma Regroup(a: seq<Event>, b: seq<Event>, c: seq<Event>, d: seq<Event>)
    ensures a + b + c + d == a + (b + c + d)
  {
  }

  lemma LifeOrder(up: seq<Event>, types: seq<Type>, res: seq<Results>, sw: seq<bool>, hw: seq<bool>, stuck: nat)
    requires |types| == |res| == |sw| == |hw| && Recorded(up, types, res, sw, hw, stuck)
    ensures InOrder(up + Teardown(types, hw, sw))
  {
    var down := Teardown(types, hw, sw);
    forall a: nat, b: nat
      ensures Before(up + down, Event(HwFini, a), Event(SwFini, b))
      ensures Before(up + down, Event(SwInit, a), Event(SwFini, b))
    {
      HardwareBeforeSoftware(types, hw, sw, a, b);
      BeforeRight(up, down, Event(HwFini, a), Event(SwFini, b));
      TeardownCount(types, hw, sw, Event(SwInit, a));
      BeforeAcross(up, down, Event(SwInit, a), Event(SwFini, b));
    }
  }

  lemma AllUndone(up: seq<Event>, types: seq<Type>, res: seq<Results>, sw: seq<bool>, hw: seq<bool>, stuck: nat, b: nat)
    requires |types| == |res| == |sw| == |hw| && stuck <= |types| && Recorded(up, types, res, sw, hw, stuck)
    requires stuck < |types| ==> !hw[stuck]
    ensures var log := up + Teardown(types, hw, sw);
      && Undone(log, SwInit, SwFini, b) && Undone(log, WbInit, WbFini, b)
      && (Undone(log, ScratchInit, ScratchFini, b) <==> b != stuck || stuck == |types|)
      && (Undone(log, HwInit, HwFini, b) <==> b != stuck || stuck == |types| || res[b].hw != 0)
  {
    var down := Teardown(types, hw, sw);
    forall e
      ensures Count(up + down, e) == Due(types, res, sw, hw, stuck, e) + Count(down, e)
    {
      CountConcat(up, down, e);
    }
    TeardownPair(types, hw, sw, SwInit, SwFini, b);
    TeardownPair(types, hw, sw, WbInit, WbFini, b);
    TeardownPair(types, hw, sw, ScratchInit, ScratchFini, b);
    TeardownPair(types, hw, sw, HwInit, HwFini, b);
  }

  /** A memory controller whose write-back memory fails: its `hw_init` took effect and is never undone. */
  lemma StuckControllerNotUndone()
    ensures var types, res := [GMC], [Results(0, 0, 0, -12)];
      var up := [Event(SwInit, 0), Event(ScratchInit, 0), Event(HwInit, 0)];
      && Stuck(types, [true], res) == 0 && Recorded(up, types, res, [true], [false], 0)
      && !Undone(up + Teardown(types, [false], [true]), HwInit, HwFini, 0)
      && !Undone(up + Teardown(types, [false], [true]), ScratchInit, ScratchFini, 0)
  {
    var types, res := [GMC], [Results(0, 0, 0, -12)];
    var a, b := [Event(SwInit, 0), Event(ScratchInit, 0)], [Event(HwInit, 0)];
    forall e
      ensures Count(a + b, e) == Due(types, res, [true], [false], 0, e)
    {
      CountConcat(a, b, e);
      CountPair(Event(SwInit, 0), Event(ScratchInit, 0), e);
      CountOne(Event(HwInit, 0), e);
    }
    assert a + b == [Event(SwInit, 0), Event(ScratchInit, 0), Event(HwInit, 0)];
    AllUndone(a + b, types, res, [true], [false], 0, 0);
  }

  lemma TeardownPair(types: seq<Type>, hw: seq<bool>, sw: seq<bool>, up: Op, down: Op, b: nat)
    requires |types| == |hw| == |sw|
    requires (up, down) in {(SwInit, SwFini), (WbInit, WbFini), (ScratchInit, ScratchFini), (HwInit, HwFini)}
    ensures Count(Teardown(types, hw, sw), Event(up, b)) == 0
    ensures Count(Teardown(types, hw, sw), Event(down, b)) == Bit(b < |types| &&
      if down == SwFini then sw[b] else hw[b] && (down == HwFini || types[b] == GMC))
  {
    TeardownCount(types, hw, sw, Event(up, b));
    TeardownCount(types, hw, sw, Event(down, b));
  }

  lemma {:induction false} HwPartPrefix(types: seq<Type>, hw: seq<bool>, i: nat, j: nat)
    requires j <= i <= |types| == |hw|
    ensures HwPart(types, hw, i) <= HwPart(types, hw, j)
    decreases i - j
  {
    if j < i { HwPartPrefix(types, hw, i, j + 1); }
  }

  /** A part of the callbacks of one block is still a prefix of the whole. */
  lemma HwPartBroken(types: seq<Type>, hw: seq<bool>, i: nat, part: seq<Event>)
    requires i < |types| == |hw| && hw[i] && part <= HwDown(types, i)
    ensures HwPart(types, hw, i + 1) + part <= HwPart(types, hw, 0)
  {
    HwPartPrefix(types, hw, i, 0);
  }

  /** Some block with hardware state cannot be ungated. */
  ghost predicate Jammed(hw: seq<bool>, ungate: seq<int>)
    requires |hw| == |ungate|
  {
    exists b :: 0 <= b < |hw| && hw[b] && ungate[b] != 0
  }

  lemma NoSwInit(more: seq<Event>, i: nat)
    requires forall a :: Count(more, Event(SwInit, a)) == 0
    ensures forall a :: Count(more + [Event(HwInit, i)], Event(SwInit, a)) == 0
  {
    forall a
      ensures Count(more + [Event(HwInit, i)], Event(SwInit, a)) == 0
    {
      CountConcat(more, [Event(HwInit, i)], Event(SwInit, a));
      CountOne(Event(HwInit, i), Event(SwInit, a));
    }
  }
}
