/** Where undone frames and forced completions leave the fence ring.

`amdgpu_ib_schedule` undoes a frame when its second fence cannot be allocated. The fence of the VM flush, stored before
that, keeps its number and its slot, and nothing signals it until a later frame is committed.
 */
module FenceUndo {
  import opened Bits
  import opened FenceRing
  import opened FenceLimits
  import opened Wrappers

  // ---------------------------------------------------------------------------------------------
  // Undone frames

  /** Fences `1 .. c` are in their slots, and nothing was ever committed. */
  ghost predicate AllUndone(s: State, c: nat) {
    && CountersOk(s) && s.emitter.Idle? && s.bumped == c && s.written == s.claimed == 0
    && s.frames == [] && s.committed == s.executed == 0 && s.procs == map[] && s.signals == []
    && InSlots(s.slots, Pow2(s.k), c)
  }

  ghost predicate InSlots(slots: seq<Option<Fence>>, m: nat, c: nat) {
    && |slots| == m >= 1
    && (forall q :: 1 <= q <= c ==> slots[q % m] == Some(q))
    && (forall i :: 0 <= i < m && slots[i].Some? ==> 1 <= slots[i].value <= c && slots[i].value % m == i)
  }

  lemma NextFree(slots: seq<Option<Fence>>, m: nat, c: nat)
    requires InSlots(slots, m, c) && c < m
    ensures slots[(c + 1) % m] == None && InSlots(slots[(c + 1) % m := Some(c + 1)], m, c + 1)
  {
    var was := slots[(c + 1) % m];
    if was.Some? { ModWindow(was.value, c + 1, m); }
  }

  /** A call of `amdgpu_ib_schedule` that fails at its second fence. */
  lemma UndoOne(k: nat, s: State, c: nat) returns (s': State)
    requires Reachable(k, s) && AllUndone(s, c) && c < Pow2(s.k)
    ensures Reachable(k, s') && AllUndone(s', c + 1) && s'.k == s.k
  {
    NextFree(s.slots, Pow2(s.k), c);
    var s1 := StoreOne(k, s);
    ReachNext(k, s1, Undo);
    s' := Apply(s1, Undo);
  }

  lemma {:induction false} UndoneReachable(k: nat, c: nat) returns (s: State)
    requires 1 <= k <= 31 && c <= Pow2(k)
    ensures Reachable(k, s) && AllUndone(s, c) && s.k == k
  {
    if c == 0 {
      InitReachable(k);
      s := Init(k);
    } else {
      var s0 := UndoneReachable(k, c - 1);
      s := UndoOne(k, s0, c - 1);
    }
  }

  /** On every ring: after as many failed calls as there are slots, and with nothing committed, the next emission waits
      for the first undone fence, for ever unless completion is forced. */
  lemma UndoneFramesStick(k: nat) returns (s: State)
    requires 1 <= k <= 31
    ensures Reachable(k, s) && Stuck(s, s.emitter) && s.emitter.prev == 1 && s.frames == [] && s.procs == map[]
  {
    var s0 := UndoneReachable(k, Pow2(k));
    ReachNext(k, s0, EmitBump);
    s := WaitsForFirst(k, Apply(s0, EmitBump));
  }

  lemma WaitsForFirst(k: nat, s: State) returns (s': State)
    requires Reachable(k, s) && CountersOk(s) && s.emitter == Bumped(s.syncSeq) && s.bumped == Pow2(s.k) + 1
    requires InSlots(s.slots, Pow2(s.k), Pow2(s.k)) && s.signals == [] && s.frames == [] && s.procs == map[]
    requires s.committed == s.executed == s.written == 0
    ensures Reachable(k, s') && Stuck(s', s'.emitter) && s'.emitter.prev == 1 && s'.frames == [] && s'.procs == map[]
  {
    FirstSlot(s);
    ReachNext(k, s, EmitLook);
    s' := Apply(s, EmitLook);
  }

  /** The slot after a full ring is that of the first fence. */
  lemma FirstSlot(s: State)
    requires CountersOk(s) && s.bumped == Pow2(s.k) + 1 && InSlots(s.slots, Pow2(s.k), Pow2(s.k))
    ensures And(s.syncSeq, Mask(s)) < |s.slots| && s.slots[And(s.syncSeq, Mask(s))] == Some(1)
  {
    SlotIndex(s, s.bumped);
    SlotIndex(s, s.syncSeq);
    ModShift(1, Pow2(s.k), 1);
  }

  /** The wait of `wait_empty` can end, without a further commit, exactly if the last fence is not above the last
      committed number. */
  lemma WaitEmptyEndsIff(s: State)
    requires Inv(s) && s.emitter.Idle? && WaitTarget(s).Some?
    ensures CanBeSignalled(s, WaitTarget(s).value) <==> s.bumped <= Horizon(s)
  {
    WaitEmptyDecides(s);
    SignalReachableIff(s, s.bumped);
  }

  /** On every ring: after one undone frame the wait cannot end. */
  lemma WaitEmptySticks(k: nat) returns (s: State)
    requires 1 <= k <= 31
    ensures Reachable(k, s) && Inv(s) && s.emitter.Idle? && WaitTarget(s) == Some(1) && !CanBeSignalled(s, 1)
  {
    Pow2Monotone(0, k);
    s := UndoneReachable(k, 1);
    ReachableInv(k, s);
    SlotIndex(s, 1);
    SignalReachableIff(s, 1);
  }

  lemma ReachableInv(k: nat, s: State)
    requires Reachable(k, s)
    ensures Inv(s)
  {
    var run, steps :| Run(k, run, steps) && run[|steps|] == s;
    RunKeepsInv(k, run, steps, |steps|);
  }

  // ---------------------------------------------------------------------------------------------
  // A forced completion during an emission

  /** Steps, each of them possible, lead from `s` to `s'`. */
  ghost predicate Leads(s: State, steps: seq<Step>, s': State)
    decreases |steps|
  {
    if steps == [] then s' == s
    else Enabled(s, steps[0]) && Leads(Apply(s, steps[0]), steps[1..], s')
  }

  lemma {:induction false} LeadsThen(s: State, a: seq<Step>, t: State, b: seq<Step>, u: State)
    requires Leads(s, a, t) && Leads(t, b, u)
    ensures Leads(s, a + b, u)
    decreases |a|
  {
    if a == [] {
      assert a + b == b;
    } else {
      LeadsThen(Apply(s, a[0]), a[1..], t, b, u);
      assert (a + b)[1..] == a[1..] + b;
    }
  }

  lemma LeadsOne(s: State, step: Step)
    requires Enabled(s, step)
    ensures Leads(s, [step], Apply(s, step))
  {
    assert [step][1..] == [];
  }

  lemma LeadsThree(s: State, a: Step, b: Step, c: Step)
    requires Enabled(s, a) && Enabled(Apply(s, a), b) && Enabled(Apply(Apply(s, a), b), c)
    ensures Leads(s, [a, b, c], Apply(Apply(Apply(s, a), b), c))
  {
    var s1 := Apply(s, a);
    var s2 := Apply(s1, b);
    LeadsOne(s, a);
    LeadsOne(s1, b);
    LeadsOne(s2, c);
    LeadsThen(s1, [b], s2, [c], Apply(s2, c));
    assert [b] + [c] == [b, c];
    LeadsThen(s, [a], s1, [b, c], Apply(s2, c));
    assert [a] + [b, c] == [a, b, c];
  }

  /** The first number is taken, and completion is forced before its fence is stored. */
  function Forced(k: nat): State {
    Init(k).(syncSeq := 1, bumped := 1, emitter := Bumped(1), word := 1, written := 1)
  }

  /** A processor claims the number, */
  function Claimed(k: nat): State {
    Forced(k).(lastSeq := 1, claimed := 1, claims := [(0, 1)])
  }

  lemma ClaimForced(k: nat)
    requires 1 <= k <= 31
    ensures Leads(Forced(k), [ReadLast(0), ReadWord(0), CasOk(0)], Claimed(k).(procs := map[0 := Walking(0, 1, 0, 1)]))
  {
    var s0 := Forced(k);
    FirstIndices(k);
    var s1 := s0.(procs := map[0 := GotLast(0, 0)]);
    var s2 := s0.(procs := map[0 := GotWord(0, 1, 0, 1)]);
    assert Apply(s0, ReadLast(0)) == s1;
    assert Apply(s1, ReadWord(0)) == s2;
    assert Apply(s2, CasOk(0)) == Claimed(k).(procs := map[0 := Walking(0, 1, 0, 1)]);
    LeadsThree(s0, ReadLast(0), ReadWord(0), CasOk(0));
  }

  /** ... finds its slot empty and returns. */
  lemma WalkEmpty(k: nat)
    requires 1 <= k <= 31
    ensures Leads(Claimed(k).(procs := map[0 := Walking(0, 1, 0, 1)]), [Fetch(0), Clear(0), Signal(0)], Claimed(k))
  {
    var s := Claimed(k);
    FirstIndices(k);
    var s0 := s.(procs := map[0 := Walking(0, 1, 0, 1)]);
    var s1 := s.(procs := map[0 := Fetched(1, 1, None, 1, 1)]);
    var s2 := s.(procs := map[0 := Cleared(1, 1, None, 1, 1)]);
    assert s.slots[1 := None] == s.slots;
    assert Apply(s0, Fetch(0)) == s1;
    assert Apply(s1, Clear(0)) == s2;
    assert s2.procs - {0} == map[];
    assert Apply(s2, Signal(0)) == s;
    LeadsThree(s0, Fetch(0), Clear(0), Signal(0));
  }

  lemma EmptyClaim(k: nat) returns (steps: seq<Step>)
    requires 1 <= k <= 31
    ensures Leads(Forced(k), steps, Claimed(k))
  {
    ClaimForced(k);
    WalkEmpty(k);
    var s := Claimed(k).(procs := map[0 := Walking(0, 1, 0, 1)]);
    LeadsThen(Forced(k), [ReadLast(0), ReadWord(0), CasOk(0)], s, [Fetch(0), Clear(0), Signal(0)], Claimed(k));
    steps := [ReadLast(0), ReadWord(0), CasOk(0)] + [Fetch(0), Clear(0), Signal(0)];
  }

  /** On every ring: completion forced between taking the first number and storing its fence. A processor claims the
      number from an empty slot; the fence is stored and committed after that, and is owed by nobody. */
  lemma ForcedTooEarly(k: nat) returns (steps: seq<Step>, s: State)
    requires 1 <= k <= 31
    ensures !Orderly(Apply(Init(k), EmitBump), ForceCompletion)
    ensures Leads(Init(k), [EmitBump, ForceCompletion] + steps, s)
    ensures s.emitter.Idle? && s.procs == map[] && s.claimed == 1 && s.signals == [] && Some(1) in s.slots
  {
    var a := EmptyClaim(k);
    var s1 := Claimed(k);
    FirstIndices(k);
    LeadsThree(s1, EmitLook, EmitStore, Commit);
    s := Apply(Apply(Apply(s1, EmitLook), EmitStore), Commit);
    assert s.slots[1] == Some(1);
    LeadsThen(Forced(k), a, s1, [EmitLook, EmitStore, Commit], s);
    steps := a + [EmitLook, EmitStore, Commit];
    LeadsOne(Init(k), EmitBump);
    LeadsOne(Apply(Init(k), EmitBump), ForceCompletion);
    assert Apply(Apply(Init(k), EmitBump), ForceCompletion) == Forced(k);
    LeadsThen(Init(k), [EmitBump], Apply(Init(k), EmitBump), [ForceCompletion], Forced(k));
    assert [EmitBump] + [ForceCompletion] == [EmitBump, ForceCompletion];
    LeadsThen(Init(k), [EmitBump, ForceCompletion], Forced(k), steps, s);
  }
}
