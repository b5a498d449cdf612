/** What the fence ring's initialisation and queries compute, and where 32-bit numbers give out.

Two promises of amdgpu_fence.c fail after 2^32 fences. `amdgpu_fence_wait_empty` takes the number 0
for an unused ring, and the exchange of `amdgpu_fence_process` cannot tell apart two values of
`last_seq` that are 2^32 apart. And the wait looks at one slot, which is emptied before its fence is
signalled. Each failure is shown on runs, with the exact condition.
 */
module FenceLimits {
  import opened Bits
  import opened FenceRing
  import opened Wrappers

  // ---------------------------------------------------------------------------------------------
  // amdgpu_fence_driver_init_ring

  /** The index mask and the number of slots allocated. */
  datatype Geometry = Geometry(mask: nat, slots: nat)

  /** 32-bit unsigned arithmetic as in the source; `None` is -EINVAL. */
  function InitRing(n: nat): Option<Geometry>
    requires n < WORD
  {
    if And(n, (n + WORD - 1) % WORD) != 0 then None
    else Some(Geometry((n * 2 + WORD - 1) % WORD, n * 2 % WORD))
  }

  /** -EINVAL exactly for the positive numbers that are not powers of two. An accepted size makes every
      sequence number a valid slot index exactly if it is neither 0 nor 2^31. */
  lemma InitRingAccepts(n: nat)
    requires n < WORD
    ensures InitRing(n).None? <==> n > 0 && !IsPow2(n)
    ensures InitRing(n).Some? ==>
      var g := InitRing(n).value;
      (forall q: nat | q < WORD :: And(q, g.mask) < g.slots) <==> 0 < n < WORD / 2
    ensures InitRing(n).Some? && 0 < n < WORD / 2 ==>
      && InitRing(n).value == Geometry(2 * n - 1, 2 * n)
      && exists k :: 1 <= k <= 31 && InitRing(n).value == Geometry(Pow2(k) - 1, Pow2(k))
  {
    if n == 0 {
      assert And(0, WORD - 1) == 0;
      assert And(0, InitRing(n).value.mask) >= InitRing(n).value.slots;
    } else {
      PowerOfTwoTest(n);
      assert (n + WORD - 1) % WORD == n - 1;
      if IsPow2(n) {
        if n < WORD / 2 {
          InitRingSmall(n);
        } else {
          PowAtLeastHalf(n);
          assert And(0, InitRing(n).value.mask) >= InitRing(n).value.slots;
        }
      }
    }
  }

  /** For 0 and for 2^31 the slot array is empty, and the mask full. */
  lemma InitRingTooSmall()
    ensures InitRing(0) == InitRing(0x8000_0000) == Some(Geometry(WORD - 1, 0))
  {
    assert And(0, WORD - 1) == 0;
    Pow2Of32();
    assert Pow2(32) == 2 * Pow2(31);
    PowerOfTwoTest(0x8000_0000);
  }

  lemma InitRingSmall(n: nat)
    requires 0 < n < WORD / 2 && IsPow2(n) && And(n, n - 1) == 0
    ensures InitRing(n) == Some(Geometry(2 * n - 1, 2 * n))
    ensures exists k :: 1 <= k <= 31 && InitRing(n).value == Geometry(Pow2(k) - 1, Pow2(k))
    ensures forall q: nat | q < WORD :: And(q, InitRing(n).value.mask) < InitRing(n).value.slots
  {
    SmallGeometry(n);
    var k: nat :| n == Pow2(k);
    PowBelow(k);
    var g := Geometry(2 * n - 1, 2 * n);
    assert g == Geometry(Pow2(k + 1) - 1, Pow2(k + 1));
    MaskBounds(g, k + 1);
  }

  lemma SmallGeometry(n: nat)
    requires 0 < n < WORD / 2 && And(n, n - 1) == 0
    ensures InitRing(n) == Some(Geometry(2 * n - 1, 2 * n))
  {
    assert (n + WORD - 1) % WORD == n - 1;
  }

  lemma MaskBounds(g: Geometry, k: nat)
    requires g == Geometry(Pow2(k) - 1, Pow2(k))
    ensures forall q: nat | q < WORD :: And(q, g.mask) < g.slots
  {
    forall q: nat | q < WORD
      ensures And(q, g.mask) < g.slots
    {
      AndMask(q, k);
    }
  }

  lemma PowBelow(k: nat)
    ensures Pow2(k) < WORD / 2 ==> k + 1 <= 31
  {
    Pow2Of32();
    if k >= 31 { Pow2Monotone(31, k); }
  }

  lemma PowAtLeastHalf(n: nat)
    requires IsPow2(n) && WORD / 2 <= n < WORD
    ensures n == WORD / 2
  {
    Pow2Of32();
    var k: nat :| n == Pow2(k);
    if k < 31 { Pow2Monotone(k, 30); }
    if k > 31 { Pow2Monotone(32, k); }
  }

  // ---------------------------------------------------------------------------------------------
  // amdgpu_fence_count_emitted, amdgpu_fence_wait_empty

  /** The 64-bit difference, cut to its lower 32 bits. */
  function CountEmitted(s: State): nat
    requires s.lastSeq < WORD
  {
    (WORD - s.lastSeq + s.syncSeq) % WORD
  }

  /** The count is the number of fences emitted and not claimed, at most one more than the ring. */
  lemma CountEmittedIsExact(s: State)
    requires Inv(s)
    ensures CountEmitted(s) == s.bumped - s.claimed <= Pow2(s.k) + 1
  {
    WindowBound(s);
    SlotCount(s);
    var d := s.bumped - s.claimed;
    var q, q' := s.bumped / WORD, s.claimed / WORD;
    ModUnique(WORD - s.lastSeq + s.syncSeq, WORD, q' - q + 1, d);
  }

  /** The fence `wait_empty` waits for, or `None` if it returns at once. */
  function WaitTarget(s: State): Option<Fence>
    requires CountersOk(s)
  {
    SlotIndex(s, s.syncSeq);
    if s.syncSeq == 0 then None else s.slots[And(s.syncSeq, Mask(s))]
  }

  /** Every fence up to `f` has been signalled. */
  ghost predicate SignalledUpTo(s: State, f: nat) {
    forall q: Fence :: 1 <= q <= f ==> q in s.signals
  }

  lemma AllSignalledIff(s: State)
    requires Inv(s)
    ensures SignalledUpTo(s, s.bumped)
       <==> s.claimed == s.bumped && forall q: Fence :: 1 <= q <= s.bumped ==> !SomeoneOwes(s, q)
  {
    if SignalledUpTo(s, s.bumped) {
      if s.bumped > 0 { assert s.bumped in s.signals; }
      forall q: Fence | 1 <= q <= s.bumped
        ensures !SomeoneOwes(s, q)
      {
        assert q in s.signals;
      }
    }
  }

  /** With no emission under way: the wait is for the last fence; and to return at once means that the
      GPU has passed every fence, unless 2^32 divides the number of fences emitted and the last is
      still unclaimed. All fences have been signalled exactly if all are claimed and nobody owes one. */
  lemma WaitEmptyDecides(s: State)
    requires Inv(s) && s.emitter.Idle?
    ensures WaitTarget(s).Some? ==> WaitTarget(s).value == s.bumped && s.bumped !in s.signals
    ensures (WaitTarget(s).None? ==> s.claimed == s.written == s.bumped)
       <==> !(s.bumped % WORD == 0 && s.claimed < s.bumped)
    ensures SignalledUpTo(s, s.bumped)
       <==> s.claimed == s.bumped && forall q: Fence :: 1 <= q <= s.bumped ==> !SomeoneOwes(s, q)
  {
    AllSignalledIff(s);
    SlotIndex(s, s.syncSeq);
    SlotIndex(s, s.bumped);
    if s.claimed < s.bumped { assert Holds(s, s.bumped); }
    if WaitTarget(s).Some? { ModWindow(WaitTarget(s).value, s.bumped, Pow2(s.k)); }
  }

  /** When `wait_empty` returns, the GPU has passed all fences emitted before the call; and they have all been
      signalled exactly if no processor is still on its way to one of them. */
  lemma WaitEmptyWaits(k: nat, run: seq<State>, steps: seq<Step>, i: nat, j: nat)
    requires Run(k, run, steps) && i <= j < |run| && run[i].emitter.Idle?
    requires CountersOk(run[i]) && (run[i].bumped % WORD != 0 || run[i].bumped == 0)
    requires WaitTarget(run[i]).Some? ==> WaitTarget(run[i]).value in run[j].signals
    ensures run[i].bumped <= run[j].claimed <= run[j].written
    ensures SignalledUpTo(run[j], run[i].bumped) <==>
      forall q: Fence :: 1 <= q <= run[i].bumped ==> !SomeoneOwes(run[j], q)
  {
    RunKeepsInv(k, run, steps, i);
    RunKeepsInv(k, run, steps, j);
    WaitEmptyDecides(run[i]);
    LastSeqMonotone(k, run, steps, i, j);
    forall q: Fence | 1 <= q <= run[i].bumped
      ensures q in run[j].signals <==> !SomeoneOwes(run[j], q)
    {
      EveryFenceAccountedFor(k, run, steps, j, q);
    }
  }

  // ---------------------------------------------------------------------------------------------
  // The exchange after 2^32 fences

  /** A successful exchange keeps the ring's invariant exactly if it does not set `last_seq` back; and it can do
      that only for a thread that 2^32 claims have passed since its read of `last_seq`. */
  lemma ExchangeSafeIffFresh(s: State, t: Tid)
    requires Inv(s) && Enabled(s, CasOk(t))
    ensures Inv(Apply(s, CasOk(t))) <==> Fresh(s, CasOk(t))
    ensures Timely(s, CasOk(t)) ==> Fresh(s, CasOk(t))
  {
    var s' := Apply(s, CasOk(t));
    if Timely(s, CasOk(t)) { FreshUnlessFullWrap(s, t); }
    if Fresh(s, CasOk(t)) {
      CasKeepsInv(s, t);
    } else {
      var f := s.claimed;
      assert s'.claimed < f;
      if f in s.signals {
        assert !SignalsOk(s');
      } else {
        var u :| u in s.procs && Owes(s.procs[u], f);
        assert ProcOk(s, s.procs[u]) && u != t;
        assert s'.procs[u] == s.procs[u] && !ProcOk(s', s'.procs[u]);
      }
    }
  }

  ghost predicate Reachable(k: nat, s: State) {
    exists run, steps :: Run(k, run, steps) && run[|steps|] == s
  }

  lemma ReachNext(k: nat, s: State, step: Step)
    requires Reachable(k, s) && Enabled(s, step) && Timely(s, step) && Orderly(s, step)
    ensures Reachable(k, Apply(s, step))
  {
    var run, steps :| Run(k, run, steps) && run[|steps|] == s;
    var run', steps' := run + [Apply(s, step)], steps + [step];
    forall i | 0 <= i < |steps'|
      ensures Enabled(run'[i], steps'[i]) && Timely(run'[i], steps'[i]) && Orderly(run'[i], steps'[i])
      ensures run'[i + 1] == Apply(run'[i], steps'[i])
    {
      if i < |steps| { assert run'[i] == run[i] && steps'[i] == steps[i]; }
    }
    assert Run(k, run', steps') && run'[|steps'|] == Apply(s, step);
  }

  /** No emission under way, `c` fences emitted, all of them executed and signalled. */
  ghost predicate AtRest(s: State, c: nat) {
    && CountersOk(s) && s.emitter.Idle? && s.bumped == s.written == s.claimed == c
    && s.executed == s.committed == |s.frames|
    && forall i :: 0 <= i < |s.slots| ==> s.slots[i] == None
  }

  /** Emission of one fence into an empty slot. */
  lemma StoreOne(k: nat, s: State) returns (s': State)
    requires Reachable(k, s) && CountersOk(s) && s.emitter.Idle? && s.slots[(s.bumped + 1) % Pow2(s.k)] == None
    ensures Reachable(k, s') && CountersOk(s') && s'.emitter == Stored(s'.syncSeq)
    ensures s' == s.(syncSeq := (s.bumped + 1) % WORD, bumped := s.bumped + 1, emitter := s'.emitter,
                     slots := s.slots[(s.bumped + 1) % Pow2(s.k) := Some(s.bumped + 1)],
                     frames := s.frames + [Command(s'.syncSeq, s.bumped + 1)])
  {
    ReachNext(k, s, EmitBump);
    NextSlotIndex(s);
    s' := StoreBumped(k, Apply(s, EmitBump), (s.bumped + 1) % Pow2(s.k));
  }

  /** The number is taken; its slot is empty. */
  lemma StoreBumped(k: nat, s: State, i: nat) returns (s': State)
    requires Reachable(k, s) && CountersOk(s) && s.emitter == Bumped(s.syncSeq)
    requires And(s.syncSeq, Mask(s)) == i < |s.slots| && s.slots[i] == None
    ensures Reachable(k, s') && CountersOk(s')
    ensures s' == s.(emitter := Stored(s.syncSeq), slots := s.slots[i := Some(s.bumped)],
                     frames := s.frames + [Command(s.syncSeq, s.bumped)])
  {
    ReachNext(k, s, EmitLook);
    var s1 := Apply(s, EmitLook);
    ReachNext(k, s1, EmitStore);
    s' := Apply(s1, EmitStore);
  }

  /** The masked 32-bit number after the current one is the slot of the next fence. */
  lemma NextSlotIndex(s: State)
    requires CountersOk(s)
    ensures (s.syncSeq + 1) % WORD == (s.bumped + 1) % WORD
    ensures And((s.syncSeq + 1) % WORD, Mask(s)) == (s.bumped + 1) % Pow2(s.k) < |s.slots|
  {
    ModSucc(s.bumped, WORD);
    SlotIndex(s, s.bumped + 1);
    SlotIndex(s, (s.bumped + 1) % WORD);
  }

  /** Emission of one fence into an empty slot, and its commit. */
  lemma EmitOne(k: nat, s: State) returns (s': State)
    requires Reachable(k, s) && CountersOk(s) && s.emitter.Idle? && s.slots[(s.bumped + 1) % Pow2(s.k)] == None
    requires s.executed == s.committed == |s.frames|
    ensures Reachable(k, s') && CountersOk(s') && s'.emitter.Idle? && s'.k == s.k
    ensures s'.bumped == s.bumped + 1 && s'.written == s.written && s'.claimed == s.claimed && s'.procs == s.procs
    ensures s'.signals == s.signals
    ensures s'.slots == s.slots[(s.bumped + 1) % Pow2(s.k) := Some(s.bumped + 1)]
    ensures s'.executed == |s.frames| && s'.committed == |s'.frames|
    ensures s'.frames == s.frames + [Command(s'.syncSeq, s'.bumped)]
  {
    var s1 := StoreOne(k, s);
    ReachNext(k, s1, Commit);
    s' := Apply(s1, Commit);
  }

  /** The GPU executes the last frame. */
  lemma WriteOne(k: nat, s: State) returns (s': State)
    requires Reachable(k, s) && CountersOk(s) && s.emitter.Idle?
    requires s.executed + 1 == s.committed == |s.frames| && s.frames[s.executed] == Command(s.syncSeq, s.bumped)
    ensures Reachable(k, s') && CountersOk(s')
    ensures s' == s.(word := s.syncSeq, written := s.bumped, executed := s.committed)
  {
    s' := Apply(s, GpuWrite);
    ReachNext(k, s, GpuWrite);
  }

  lemma ReachNext3(k: nat, s: State, a: Step, b: Step, c: Step)
    requires Reachable(k, s) && !a.ForceCompletion? && !b.ForceCompletion? && !c.ForceCompletion?
    requires Enabled(s, a) && Timely(s, a)
    requires var s1 := Apply(s, a); Enabled(s1, b) && Timely(s1, b)
    requires var s2 := Apply(Apply(s, a), b); Enabled(s2, c) && Timely(s2, c)
    ensures Reachable(k, Apply(Apply(Apply(s, a), b), c))
  {
    ReachNext(k, s, a);
    ReachNext(k, Apply(s, a), b);
    ReachNext(k, Apply(Apply(s, a), b), c);
  }

  /** Thread 1 claims the one new fence. */
  lemma ClaimOne(s: State) returns (s': State)
    requires CountersOk(s) && 1 !in s.procs && s.written == s.claimed + 1
    ensures Enabled(s, ReadLast(1)) && Enabled(Apply(s, ReadLast(1)), ReadWord(1))
    ensures var s2 := Apply(Apply(s, ReadLast(1)), ReadWord(1));
      Enabled(s2, CasOk(1)) && Timely(s2, CasOk(1)) && s' == Apply(s2, CasOk(1))
    ensures CountersOk(s')
    ensures s' == s.(lastSeq := s.word, claimed := s.written, claims := s'.claims, procs := s'.procs)
    ensures var m := Pow2(s.k);
      s'.procs == s.procs[1 := Walking(s.claimed % m, s.written % m, s.claimed, s.written)]
  {
    ClaimIndices(s);
    s' := Apply(Apply(Apply(s, ReadLast(1)), ReadWord(1)), CasOk(1));
    assert s'.procs == s.procs[1 := s'.procs[1]];
  }

  lemma ClaimIndices(s: State)
    requires CountersOk(s) && s.written == s.claimed + 1
    ensures s.word != s.lastSeq
    ensures And(s.lastSeq, Mask(s)) == s.claimed % Pow2(s.k) && And(s.word, Mask(s)) == s.written % Pow2(s.k)
  {
    if s.word == s.lastSeq { ModWindow(s.claimed, s.written, WORD); }
    SlotIndex(s, s.claimed);
    SlotIndex(s, s.written);
    SlotIndex(s, s.lastSeq);
    SlotIndex(s, s.word);
  }

  /** ... finds it in the next slot, */
  lemma FetchOne(s: State) returns (s': State)
    requires CountersOk(s) && 1 in s.procs && s.claimed >= 1
    requires var m := Pow2(s.k); s.procs[1] == Walking((s.claimed - 1) % m, s.claimed % m, s.claimed - 1, s.claimed)
    ensures Enabled(s, Fetch(1)) && s' == Apply(s, Fetch(1)) && CountersOk(s') && s.claimed % Pow2(s.k) < |s.slots|
    ensures var i := s.claimed % Pow2(s.k);
      s' == s.(procs := s.procs[1 := Fetched(i, i, s.slots[i], s.claimed, s.claimed)])
  {
    NextIndex(s, s.claimed);
    s' := Apply(s, Fetch(1));
  }

  /** The masked increment leads to the slot of the next counter. */
  lemma NextIndex(s: State, c: nat)
    requires CountersOk(s) && c >= 1
    ensures And((c - 1) % Pow2(s.k) + 1, Mask(s)) == c % Pow2(s.k) < |s.slots|
  {
    SlotIndex(s, (c - 1) % Pow2(s.k) + 1);
    ModSucc(c - 1, Pow2(s.k));
  }

  /** ... takes it out of its slot, signals it and returns. */
  lemma SignalOne(s: State) returns (s': State)
    requires CountersOk(s) && 1 in s.procs && s.claimed >= 1
    requires var m := Pow2(s.k); s.procs[1] == Walking((s.claimed - 1) % m, s.claimed % m, s.claimed - 1, s.claimed)
    ensures Enabled(s, Fetch(1)) && Enabled(Apply(s, Fetch(1)), Clear(1))
    ensures var s2 := Apply(Apply(s, Fetch(1)), Clear(1)); Enabled(s2, Signal(1)) && s' == Apply(s2, Signal(1))
    ensures CountersOk(s')
    ensures s' == s.(slots := s.slots[s.claimed % Pow2(s.k) := None], signals := s'.signals, procs := s.procs - {1})
  {
    var s1 := FetchOne(s);
    s' := Apply(Apply(s1, Clear(1)), Signal(1));
    assert s'.procs == s.procs - {1};
  }

  lemma ReachClaim(k: nat, s: State) returns (s': State)
    requires Reachable(k, s) && CountersOk(s) && 1 !in s.procs && s.written == s.claimed + 1
    ensures Reachable(k, s') && CountersOk(s')
    ensures s' == s.(lastSeq := s.word, claimed := s.written, claims := s'.claims, procs := s'.procs)
    ensures var m := Pow2(s.k);
      s'.procs == s.procs[1 := Walking(s.claimed % m, s.written % m, s.claimed, s.written)]
  {
    s' := ClaimOne(s);
    ReachNext3(k, s, ReadLast(1), ReadWord(1), CasOk(1));
  }

  lemma ReachSignal(k: nat, s: State) returns (s': State)
    requires Reachable(k, s) && CountersOk(s) && 1 in s.procs && s.claimed >= 1
    requires var m := Pow2(s.k); s.procs[1] == Walking((s.claimed - 1) % m, s.claimed % m, s.claimed - 1, s.claimed)
    ensures Reachable(k, s') && CountersOk(s')
    ensures s' == s.(slots := s.slots[s.claimed % Pow2(s.k) := None], signals := s'.signals, procs := s.procs - {1})
  {
    s' := SignalOne(s);
    ReachNext3(k, s, Fetch(1), Clear(1), Signal(1));
  }

  /** Claim and signal the one outstanding fence. */
  lemma ProcessOne(k: nat, s: State) returns (s': State)
    requires Reachable(k, s) && CountersOk(s) && s.emitter.Idle? && 1 !in s.procs
    requires s.bumped == s.written == s.claimed + 1 && s.executed == s.committed == |s.frames|
    requires forall i :: 0 <= i < |s.slots| && i != s.bumped % Pow2(s.k) ==> s.slots[i] == None
    ensures Reachable(k, s') && AtRest(s', s.bumped) && s'.procs == s.procs && s'.k == s.k
  {
    var s1 := ReachClaim(k, s);
    s' := ReachSignal(k, s1);
    assert s1.procs - {1} == s.procs;
  }

  const SLEEPING := GotWord(0, 1, 0, 1)

  lemma {:induction false} RestReachable(k: nat, c: nat) returns (s: State)
    requires 1 <= k <= 31 && c >= 1
    ensures Reachable(k, s) && AtRest(s, c) && s.k == k && s.procs == map[0 := SLEEPING]
  {
    if c == 1 {
      s := FirstFence(k);
    } else {
      var s0 := RestReachable(k, c - 1);
      var s1 := EmitOne(k, s0);
      var s2 := WriteOne(k, s1);
      s := ProcessOne(k, s2);
    }
  }

  lemma InitReachable(k: nat)
    requires 1 <= k <= 31
    ensures Reachable(k, Init(k)) && AtRest(Init(k), 0)
  {
    var run, steps: seq<Step> := [Init(k)], [];
    assert Run(k, run, steps) && run[|steps|] == Init(k);
  }

  /** Thread 0 reads `last_seq` 0, then the word 1, and is then delayed. */
  lemma SleeperReads(k: nat) returns (s: State)
    requires 1 <= k <= 31
    ensures Reachable(k, s) && CountersOk(s) && s.emitter.Idle? && s.k == k && s.procs == map[0 := SLEEPING]
    ensures s.bumped == s.written == s.claimed + 1 == 1 && s.executed == s.committed == |s.frames|
    ensures forall i :: 0 <= i < |s.slots| && i != 1 % Pow2(k) ==> s.slots[i] == None
  {
    InitReachable(k);
    var s1 := EmitOne(k, Init(k));
    ReachNext(k, s1, ReadLast(0));
    var s2 := Apply(s1, ReadLast(0));
    var s3 := WriteOne(k, s2);
    ReachNext(k, s3, ReadWord(0));
    s := Apply(s3, ReadWord(0));
    assert s.procs == map[0 := SLEEPING];
  }

  lemma FirstFence(k: nat) returns (s: State)
    requires 1 <= k <= 31
    ensures Reachable(k, s) && AtRest(s, 1) && s.k == k && s.procs == map[0 := SLEEPING]
  {
    var s1 := SleeperReads(k);
    s := ProcessOne(k, s1);
  }

  /** On every ring: with the first fence claimed and taken from its slot but not signalled, `wait_empty` returns
      at once. */
  lemma WaitEmptyReturnsBeforeSignal(k: nat) returns (s: State)
    requires 1 <= k <= 31
    ensures Reachable(k, s) && CountersOk(s) && s.emitter.Idle?
    ensures WaitTarget(s) == None && s.bumped == s.claimed == 1 && s.signals == [] && !SignalledUpTo(s, s.bumped)
  {
    InitReachable(k);
    var s1 := EmitOne(k, Init(k));
    var s2 := WriteOne(k, s1);
    var s3 := ReachClaim(k, s2);
    s := TakenFromSlot(k, s3);
  }

  lemma TakenFromSlot(k: nat, s: State) returns (s': State)
    requires Reachable(k, s) && CountersOk(s) && s.emitter.Idle? && s.bumped == s.claimed == 1 && s.signals == []
    requires 1 in s.procs && s.procs[1] == Walking(0 % Pow2(s.k), 1 % Pow2(s.k), 0, 1)
    ensures Reachable(k, s') && CountersOk(s') && s'.emitter.Idle?
    ensures WaitTarget(s') == None && s'.bumped == s'.claimed == 1 && s'.signals == [] && !SignalledUpTo(s', s'.bumped)
  {
    var s1 := FetchOne(s);
    ReachNext(k, s, Fetch(1));
    SlotIndex(s1, 1);
    ReachNext(k, s1, Clear(1));
    s' := Apply(s1, Clear(1));
    assert 1 !in s'.signals;
  }

  /** On every ring: with 2^32 fences emitted and the last one not executed, `wait_empty` returns at once. */
  lemma WaitEmptyMissesAtWrap(k: nat) returns (s: State)
    requires 1 <= k <= 31
    ensures Reachable(k, s) && CountersOk(s) && s.emitter.Idle?
    ensures WaitTarget(s) == None && s.written < s.bumped == WORD
  {
    var r := RestReachable(k, WORD - 1);
    s := EmitOne(k, r);
  }

  /** On every ring, the delayed exchange of thread 0 succeeds after exactly 2^32 fences, and the thread then
      fetches, for signalling, one more fence that the GPU has not executed. */
  lemma StaleExchangeSignalsEarly(k: nat) returns (s: State)
    requires 1 <= k <= 31
    ensures Reachable(k, s) && s.written == WORD
    ensures Enabled(s, CasOk(0)) && !Fresh(s, CasOk(0)) && s.claimed == s.procs[0].lastAt + WORD
    ensures Enabled(Apply(s, CasOk(0)), Fetch(0))
    ensures Apply(Apply(s, CasOk(0)), Fetch(0)).procs[0].fence == Some(WORD + 1)
  {
    var r := RestReachable(k, WORD);
    s := EmitOne(k, r);
    StaleExchange(s);
  }

  /** After 2^32 claims the exchange of the delayed thread succeeds, and its walk goes on to the fence after those. */
  lemma StaleExchange(s: State)
    requires CountersOk(s) && s.procs == map[0 := SLEEPING] && s.claimed == WORD
    requires (WORD + 1) % Pow2(s.k) < |s.slots| && s.slots[(WORD + 1) % Pow2(s.k)] == Some(WORD + 1)
    ensures Enabled(s, CasOk(0)) && !Fresh(s, CasOk(0)) && s.claimed == s.procs[0].lastAt + WORD
    ensures Enabled(Apply(s, CasOk(0)), Fetch(0))
    ensures Apply(Apply(s, CasOk(0)), Fetch(0)).procs[0].fence == Some(WORD + 1)
  {
    AfterWrap(s);
    var s1 := Apply(s, CasOk(0));
    assert s1.procs[0] == Walking(0, And(1, Mask(s)), WORD, 1);
  }

  /** Number 1 after the wrap has the slot of the fence after 2^32. */
  lemma AfterWrap(s: State)
    requires CountersOk(s)
    ensures And(0, Mask(s)) == 0 && And(0 + 1, Mask(s)) == (WORD + 1) % Pow2(s.k) < |s.slots|
  {
    FirstIndices(s.k);
    ModOfWord(WORD + 1, s.k);
    ModUnique(WORD + 1, WORD, 1, 1);
  }
}
