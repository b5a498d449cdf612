/** The page-flip continuation (amdgpu_display.c).

A flip waits for the exclusive and the shared fences of its buffer without blocking: the work function goes
over the fence slots, and at the first fence that has not signalled it leaves its one embedded callback there
and returns; the callback queues the work function again. The slots are the exclusive fence followed by the
shared ones, and each slot owns one fence reference.
 */
module PageFlip {
  import opened Wrappers

  type Fence = nat

  datatype Status = NoFlip | FlipPending | FlipSubmitted

  /** The work function is not running, or is about to look at slot `next`. */
  datatype Worker = Off | Queued | At(next: nat)

  datatype Work = Work(
    slots: seq<Option<Fence>>,
    armed: Option<Fence>,              // the fence the embedded callback waits on
    worker: Worker,
    owned: multiset<Fence>,            // history: the references the work started with
    dropped: multiset<Fence>,          // history: references put so far
    wakeups: nat)                      // history: how often the callback queued the work

  datatype State = State(
    status: Status,
    work: Work,                        // pflip_works; meaningless while there is no flip
    signalled: set<Fence>,
    accepted: nat,                     // history: flips accepted, flips programmed
    programmed: nat)

  datatype Step =
    | Request(slots: seq<Option<Fence>>)   // amdgpu_crtc_page_flip
    | SignalFence(f: Fence)
    | Callback                             // amdgpu_flip_callback
    | Start                                // the work queue runs the work function
    | Slot                                 // amdgpu_flip_handle_fence on the next slot
    | Program                              // past the last slot: do the flip
    | Complete                             // the flip interrupt retires the work

  function Fences(slots: seq<Option<Fence>>): multiset<Fence> {
    if slots == [] then multiset{} else
    Fences(slots[..|slots| - 1]) + if slots[|slots| - 1].Some? then multiset{slots[|slots| - 1].value} else multiset{}
  }

  predicate Enabled(s: State, step: Step) {
    match step
    case Request(_) => true
    case SignalFence(_) => true
    case Callback => s.work.armed.Some? && s.work.armed.value in s.signalled
    case Start => s.work.worker == Queued
    case Slot => s.work.worker.At? && s.work.worker.next < |s.work.slots|
    case Program => s.work.worker.At? && s.work.worker.next >= |s.work.slots|
    case Complete => s.status == FlipSubmitted
  }

  function Apply(s: State, step: Step): State
    requires Enabled(s, step)
  {
    var w := s.work;
    match step
    case Request(slots) =>
      if s.status != NoFlip then s         // -EBUSY
      else s.(status := FlipPending, accepted := s.accepted + 1,
              work := Work(slots, None, At(0), Fences(slots), multiset{}, 0))
    case SignalFence(f) => s.(signalled := s.signalled + {f})
    case Callback =>
      s.(work := w.(armed := None, worker := Queued, dropped := w.dropped + multiset{w.armed.value},
                    wakeups := w.wakeups + 1))
    case Start => s.(work := w.(worker := At(0)))
    case Slot =>
      var i := w.worker.next;
      if w.slots[i] == None then s.(work := w.(worker := At(i + 1)))
      else
        var f, slots := w.slots[i].value, w.slots[i := None];
        if f in s.signalled
        then s.(work := w.(slots := slots, worker := At(i + 1), dropped := w.dropped + multiset{f}))
        else s.(work := w.(slots := slots, worker := Off, armed := Some(f)))
    case Program => s.(status := FlipSubmitted, programmed := s.programmed + 1, work := w.(worker := Off))
    case Complete => s.(status := NoFlip)
  }

  const INITIAL := State(NoFlip, Work([], None, Off, multiset{}, multiset{}, 0), {}, 0, 0)

  // ---------------------------------------------------------------------------------------------
  // Invariant

  function Armed(w: Work): multiset<Fence> {
    if w.armed.Some? then multiset{w.armed.value} else multiset{}
  }

  /** References are conserved: every one is in a slot, with the callback, or dropped. */
  ghost predicate Conserved(w: Work) {
    w.owned == Fences(w.slots) + Armed(w) + w.dropped
  }

  ghost predicate WorkOk(s: State) {
    var w := s.work;
    && Conserved(w)
    && (forall f :: f in w.dropped ==> f in s.signalled)
    && w.wakeups + |Fences(w.slots)| + |Armed(w)| <= |w.owned|
    // the work is in exactly one place: running or queued, or parked on its callback
    && (s.status == FlipPending ==> (w.armed.Some? <==> w.worker == Off))
    && (s.status == FlipSubmitted ==> Fences(w.slots) == multiset{})
    && (w.worker.At? ==> w.worker.next <= |w.slots| && forall i :: 0 <= i < w.worker.next ==> w.slots[i] == None)
  }

  ghost predicate Inv(s: State) {
    && (s.status != NoFlip ==> WorkOk(s))
    // neither callback nor work function outlives the wait for the fences
    && (s.status != FlipPending ==> s.work.armed == None && s.work.worker == Off)
    && s.accepted == s.programmed + (if s.status == FlipPending then 1 else 0)
  }

  lemma {:induction false} FencesOf(slots: seq<Option<Fence>>, i: nat)
    requires i < |slots| && slots[i].Some?
    ensures Fences(slots) == Fences(slots[i := None]) + multiset{slots[i].value}
    decreases |slots|
  {
    var n := |slots| - 1;
    if i < n {
      FencesOf(slots[..n], i);
      assert slots[i := None][..n] == slots[..n][i := None];
    } else {
      assert slots[i := None][..n] == slots[..n];
    }
  }

  lemma {:induction false} NoFences(slots: seq<Option<Fence>>)
    requires forall i :: 0 <= i < |slots| ==> slots[i] == None
    ensures Fences(slots) == multiset{}
  {
    if slots != [] { NoFences(slots[..|slots| - 1]); }
  }

  lemma SlotConserves(w: Work, i: nat, w': Work)
    requires Conserved(w) && i < |w.slots| && w.slots[i].Some? && w.armed == None
    requires w'.slots == w.slots[i := None] && w'.owned == w.owned
    requires var f := w.slots[i].value;
      || (w'.armed == None && w'.dropped == w.dropped + multiset{f})
      || (w'.armed == Some(f) && w'.dropped == w.dropped)
    ensures Conserved(w') && |Fences(w'.slots)| + |Armed(w')| <= |Fences(w.slots)|
  {
    FencesOf(w.slots, i);
  }

  lemma EmptySlotKeepsInv(s: State)
    requires Inv(s) && Enabled(s, Slot) && s.work.slots[s.work.worker.next] == None
    ensures Inv(Apply(s, Slot))
  {
  }

  lemma SignalledSlotKeepsInv(s: State)
    requires Inv(s) && Enabled(s, Slot)
    requires var slot := s.work.slots[s.work.worker.next]; slot.Some? && slot.value in s.signalled
    ensures Inv(Apply(s, Slot))
  {
    SlotConserves(s.work, s.work.worker.next, Apply(s, Slot).work);
  }

  lemma BusySlotKeepsInv(s: State)
    requires Inv(s) && Enabled(s, Slot)
    requires var slot := s.work.slots[s.work.worker.next]; slot.Some? && slot.value !in s.signalled
    ensures Inv(Apply(s, Slot))
  {
    SlotConserves(s.work, s.work.worker.next, Apply(s, Slot).work);
  }

  lemma SlotKeepsInv(s: State)
    requires Inv(s) && Enabled(s, Slot)
    ensures Inv(Apply(s, Slot))
  {
    var slot := s.work.slots[s.work.worker.next];
    if slot == None {
      EmptySlotKeepsInv(s);
    } else if slot.value in s.signalled {
      SignalledSlotKeepsInv(s);
    } else {
      BusySlotKeepsInv(s);
    }
  }

  lemma CallbackConserves(w: Work, w': Work)
    requires Conserved(w) && w.armed.Some? && w'.armed == None && w'.slots == w.slots
    requires w'.owned == w.owned && w'.dropped == w.dropped + multiset{w.armed.value}
    ensures Conserved(w') && |Armed(w)| == 1 && |Armed(w')| == 0
  {
  }

  lemma CallbackKeepsInv(s: State)
    requires Inv(s) && Enabled(s, Callback)
    ensures Inv(Apply(s, Callback))
  {
    CallbackConserves(s.work, Apply(s, Callback).work);
  }

  lemma StepKeepsInv(s: State, step: Step)
    requires Inv(s) && Enabled(s, step)
    ensures Inv(Apply(s, step))
  {
    match step
    case Slot => SlotKeepsInv(s);
    case Callback => CallbackKeepsInv(s);
    case Program => NoFences(s.work.slots);
    case _ =>
  }

  ghost predicate Run(run: seq<State>, steps: seq<Step>) {
    && |run| == |steps| + 1 && run[0] == INITIAL
    && forall i :: 0 <= i < |steps| ==> Enabled(run[i], steps[i]) && run[i + 1] == Apply(run[i], steps[i])
  }

  lemma {:induction false} RunKeepsInv(run: seq<State>, steps: seq<Step>, n: nat)
    requires Run(run, steps) && n < |run|
    ensures Inv(run[n])
  {
    if n > 0 {
      RunKeepsInv(run, steps, n - 1);
      StepKeepsInv(run[n - 1], steps[n - 1]);
    }
  }

  /** A request can always be made; it is accepted exactly if no flip is in progress, and otherwise changes nothing. */
  lemma AcceptedIff(s: State, slots: seq<Option<Fence>>)
    ensures Enabled(s, Request(slots))
    ensures var t := Apply(s, Request(slots));
      if s.status == NoFlip then t.status == FlipPending && t.accepted == s.accepted + 1 && t.signalled == s.signalled
      else t == s
  {
  }

  predicate Accepts(s: State, step: Step) {
    step.Request? && s.status == NoFlip
  }

  /** How often the callback ran in the steps from `lo` up to `hi`. */
  function Callbacks(steps: seq<Step>, lo: nat, hi: nat): nat
    requires lo <= hi <= |steps|
  {
    if lo == hi then 0 else Callbacks(steps, lo, hi - 1) + if steps[hi - 1].Callback? then 1 else 0
  }

  /** Step `i` is the last request before `n` that was made with no flip in progress. */
  ghost predicate LastRequest(run: seq<State>, steps: seq<Step>, i: nat, n: nat)
    requires Run(run, steps) && n <= |steps|
  {
    && i < n && Accepts(run[i], steps[i])
    && forall k :: i < k < n ==> !Accepts(run[k], steps[k])
  }

  lemma FlipStep(run: seq<State>, steps: seq<Step>, k: nat)
    requires Run(run, steps) && k < |steps| && run[k + 1].status != NoFlip
    ensures var now := run[k + 1].work;
      if Accepts(run[k], steps[k]) then now.owned == Fences(steps[k].slots) && now.wakeups == 0
      else
        && run[k].status != NoFlip && now.owned == run[k].work.owned
        && now.wakeups == run[k].work.wakeups + if steps[k].Callback? then 1 else 0
  {
    RunKeepsInv(run, steps, k);
    assert Enabled(run[k], steps[k]);
  }

  lemma {:induction false} FlipOfRequest(run: seq<State>, steps: seq<Step>, n: nat) returns (i: nat)
    requires Run(run, steps) && n < |run| && run[n].status != NoFlip
    ensures LastRequest(run, steps, i, n) && run[n].work.owned == Fences(steps[i].slots)
    ensures run[n].work.wakeups == Callbacks(steps, i + 1, n)
  {
    FlipStep(run, steps, n - 1);
    if Accepts(run[n - 1], steps[n - 1]) {
      i := n - 1;
    } else {
      i := FlipOfRequest(run, steps, n - 1);
    }
  }

  lemma {:induction false} FencesCount(slots: seq<Option<Fence>>, f: Fence)
    ensures Fences(slots)[f] == multiset(slots)[Some(f)]
  {
    if slots != [] {
      var n := |slots| - 1;
      FencesCount(slots[..n], f);
      assert slots == slots[..n] + [slots[n]];
      assert multiset(slots) == multiset(slots[..n]) + multiset{slots[n]};
    }
  }

  /** The flip is programmed only after every fence of the request it belongs to has signalled; by then the reference of
      each slot has been dropped, once. */
  lemma ProgrammedAfterAllFences(run: seq<State>, steps: seq<Step>, j: nat) returns (i: nat)
    requires Run(run, steps) && j < |steps| && steps[j].Program?
    ensures LastRequest(run, steps, i, j)
    ensures forall f :: Some(f) in steps[i].slots ==> f in run[j].signalled
    ensures forall f :: run[j].work.dropped[f] == multiset(steps[i].slots)[Some(f)]
  {
    RunKeepsInv(run, steps, j);
    i := FlipOfRequest(run, steps, j);
    NoFences(run[j].work.slots);
    var slots := steps[i].slots;
    forall f: Fence
      ensures run[j].work.dropped[f] == multiset(slots)[Some(f)]
    {
      FencesCount(slots, f);
    }
    forall f | Some(f) in slots
      ensures f in run[j].signalled
    {
      FencesCount(slots, f);
      assert Some(f) in multiset(slots);
      assert f in run[j].work.dropped;
    }
  }

  /** Each accepted flip is programmed exactly once, although neither the callback nor the work function looks at
      the status: at any time the flips programmed are those accepted, less the one in progress, and there is never
      more than one in progress. */
  lemma ProgrammedOnce(run: seq<State>, steps: seq<Step>, n: nat)
    requires Run(run, steps) && n < |run|
    ensures n < |steps| && (steps[n].Callback? || steps[n].Start? || steps[n].Slot? || steps[n].Program?) ==>
      run[n].status == FlipPending
    ensures run[n].programmed <= run[n].accepted <= run[n].programmed + 1
    ensures run[n].accepted == run[n].programmed + 1 <==> run[n].status == FlipPending
  {
    RunKeepsInv(run, steps, n);
  }

  lemma {:induction false} FencesAtMost(slots: seq<Option<Fence>>)
    ensures |Fences(slots)| <= |slots|
  {
    if slots != [] { FencesAtMost(slots[..|slots| - 1]); }
  }

  /** The one callback is armed only when it is free, and the work is resumed at most once per fence. */
  lemma CallbackNeverRearmed(run: seq<State>, steps: seq<Step>, i: nat)
    requires Run(run, steps) && i < |steps|
    ensures steps[i].Slot? || steps[i].Start? ==> run[i].work.armed == None
    ensures run[i].status != NoFlip ==> run[i].work.wakeups <= |run[i].work.owned|
  {
    RunKeepsInv(run, steps, i);
  }

  /** Since the request of a flip the callback has queued the work at most once per slot. */
  lemma ResumedOncePerSlot(run: seq<State>, steps: seq<Step>, n: nat) returns (i: nat)
    requires Run(run, steps) && n < |run| && run[n].status != NoFlip
    ensures LastRequest(run, steps, i, n) && Callbacks(steps, i + 1, n) <= |steps[i].slots|
  {
    RunKeepsInv(run, steps, n);
    i := FlipOfRequest(run, steps, n);
    FencesAtMost(steps[i].slots);
  }

  /** A pending flip is never stranded: as soon as the fence it is parked on has signalled, a step of its own is
      possible. */
  lemma NeverStranded(run: seq<State>, steps: seq<Step>, n: nat)
    requires Run(run, steps) && n < |run| && run[n].status == FlipPending
    requires run[n].work.armed.Some? ==> run[n].work.armed.value in run[n].signalled
    ensures Enabled(run[n], Callback) || Enabled(run[n], Start) || Enabled(run[n], Slot) || Enabled(run[n], Program)
  {
    RunKeepsInv(run, steps, n);
  }

  /** References not dropped yet. */
  function Left(w: Work): multiset<Fence> {
    Fences(w.slots) + Armed(w)
  }

  /** The steps of the flip itself, up to programming. */
  predicate Own(step: Step) {
    step.Callback? || step.Start? || step.Slot?
  }

  ghost predicate Leads(s: State, steps: seq<Step>, s': State)
    decreases |steps|
  {
    if steps == [] then s' == s
    else Own(steps[0]) && Enabled(s, steps[0]) && Leads(Apply(s, steps[0]), steps[1..], s')
  }

  ghost predicate CanProgram(s: State) {
    exists steps, s' :: Leads(s, steps, s') && Enabled(s', Program)
  }

  lemma SlotKeepsLeft(s: State, f: Fence)
    requires Inv(s) && s.status == FlipPending && Enabled(s, Slot)
    ensures f in Left(s.work) && f !in s.signalled ==> f in Left(Apply(s, Slot).work)
    ensures f in Left(Apply(s, Slot).work) ==> f in Left(s.work)
  {
    var slot := s.work.slots[s.work.worker.next];
    if slot.Some? { FencesOf(s.work.slots, s.work.worker.next); }
  }

  /** Own steps take references away only from signalled fences. */
  lemma OwnKeepsLeft(s: State, step: Step, f: Fence)
    requires Inv(s) && s.status == FlipPending && Own(step) && Enabled(s, step)
    ensures var t := Apply(s, step); Inv(t) && t.status == FlipPending && t.signalled == s.signalled
    ensures f in Left(s.work) && f !in s.signalled ==> f in Left(Apply(s, step).work)
    ensures f in Left(Apply(s, step).work) ==> f in Left(s.work)
  {
    StepKeepsInv(s, step);
    if step.Slot? { SlotKeepsLeft(s, f); }
  }

  lemma {:induction false} UnsignalledBlocks(s: State, steps: seq<Step>, s': State, f: Fence)
    requires Inv(s) && s.status == FlipPending && Leads(s, steps, s') && f in Left(s.work) && f !in s.signalled
    ensures !Enabled(s', Program)
    decreases |steps|
  {
    if steps == [] {
      if Enabled(s, Program) { NoFences(s.work.slots); }
    } else {
      OwnKeepsLeft(s, steps[0], f);
      UnsignalledBlocks(Apply(s, steps[0]), steps[1..], s', f);
    }
  }

  /** How far the flip is from being programmed if nothing blocks it. */
  function Distance(w: Work): int {
    match w.worker
    case Off => |w.slots| + 2
    case Queued => |w.slots| + 1
    case At(next) => |w.slots| - next
  }

  lemma {:induction false} GetsProgrammed(s: State) returns (steps: seq<Step>, s': State)
    requires Inv(s) && s.status == FlipPending && forall f :: f in Left(s.work) ==> f in s.signalled
    ensures Leads(s, steps, s') && Enabled(s', Program)
    decreases Distance(s.work)
  {
    if Enabled(s, Program) {
      steps, s' := [], s;
    } else {
      var step := if s.work.worker.At? then Slot else if s.work.worker == Queued then Start else Callback;
      Closer(s, step);
      StillSignalled(s, step);
      steps, s' := GetsProgrammed(Apply(s, step));
      assert ([step] + steps)[1..] == steps;
      steps := [step] + steps;
    }
  }

  lemma NextOwn(s: State, step: Step)
    requires Inv(s) && s.status == FlipPending && (forall f :: f in Left(s.work) ==> f in s.signalled)
    requires !Enabled(s, Program)
    requires step == if s.work.worker.At? then Slot else if s.work.worker == Queued then Start else Callback
    ensures Own(step) && Enabled(s, step)
  {
    if s.work.armed.Some? { assert s.work.armed.value in Left(s.work); }
  }

  lemma SlotPasses(s: State)
    requires Enabled(s, Slot) && forall f :: f in Left(s.work) ==> f in s.signalled
    ensures Apply(s, Slot).work.worker == At(s.work.worker.next + 1)
  {
    var slot := s.work.slots[s.work.worker.next];
    if slot.Some? {
      FencesOf(s.work.slots, s.work.worker.next);
      assert slot.value in Left(s.work);
    }
  }

  lemma Closer(s: State, step: Step)
    requires Inv(s) && s.status == FlipPending && (forall f :: f in Left(s.work) ==> f in s.signalled)
    requires !Enabled(s, Program)
    requires step == if s.work.worker.At? then Slot else if s.work.worker == Queued then Start else Callback
    ensures Own(step) && Enabled(s, step)
    ensures var t := Apply(s, step); 0 <= Distance(t.work) < Distance(s.work)
  {
    NextOwn(s, step);
    if step.Slot? { SlotPasses(s); }
  }

  lemma StillSignalled(s: State, step: Step)
    requires Inv(s) && s.status == FlipPending && Own(step) && Enabled(s, step)
    requires forall f :: f in Left(s.work) ==> f in s.signalled
    ensures var t := Apply(s, step);
      Inv(t) && t.status == FlipPending && forall f :: f in Left(t.work) ==> f in t.signalled
  {
    forall f: Fence
      ensures Inv(Apply(s, step)) && Apply(s, step).status == FlipPending && Apply(s, step).signalled == s.signalled
      ensures f in Left(Apply(s, step).work) ==> f in s.signalled
    {
      OwnKeepsLeft(s, step, f);
    }
  }

  /** In every run a pending flip can go on to be programmed, by its own steps, exactly if all fences it has still to
      wait for have signalled. */
  lemma ProgramsIff(run: seq<State>, steps: seq<Step>, n: nat)
    requires Run(run, steps) && n < |run| && run[n].status == FlipPending
    ensures CanProgram(run[n]) <==> forall f :: f in Left(run[n].work) ==> f in run[n].signalled
  {
    RunKeepsInv(run, steps, n);
    var s := run[n];
    if forall f :: f in Left(s.work) ==> f in s.signalled {
      var more, s' := GetsProgrammed(s);
      assert Leads(s, more, s') && Enabled(s', Program);
    } else {
      var f :| f in Left(s.work) && f !in s.signalled;
      forall more, s' | Leads(s, more, s')
        ensures !Enabled(s', Program)
      {
        UnsignalledBlocks(s, more, s', f);
      }
    }
  }

  // ---------------------------------------------------------------------------------------------
  // The loop of the work function, while no fence signals

  lemma FencesNext(slots: seq<Option<Fence>>, i: nat)
    requires i < |slots|
    ensures Fences(slots[..i + 1]) ==
      Fences(slots[..i]) + if slots[i].Some? then multiset{slots[i].value} else multiset{}
  {
    assert slots[..i + 1][..i] == slots[..i];
  }

  /** `amdgpu_flip_handle_fence` on slot `i`: the fence the callback was armed on, or the fence put. */
  method HandleFence(slots: array<Option<Fence>>, i: nat, signalled: set<Fence>)
    returns (armed: Option<Fence>, put: seq<Fence>)
    requires i < slots.Length
    modifies slots
    ensures slots[..] == old(slots[..])[i := None]
    ensures armed == if old(slots[i]).Some? && old(slots[i]).value !in signalled then old(slots[i]) else None
    ensures put == if old(slots[i]).Some? && old(slots[i]).value in signalled then [old(slots[i]).value] else []
  {
    var fence := slots[i];
    if fence == None {
      return None, [];
    }
    slots[i] := None;
    if fence.value !in signalled {
      return fence, [];
    }
    return None, [fence.value];
  }

  /** The pass has dealt with the slots before `i`, all of them empty or signalled. */
  ghost predicate Passed(was: seq<Option<Fence>>, now: seq<Option<Fence>>, signalled: set<Fence>, i: nat) {
    && |now| == |was| && i <= |was|
    && (forall j :: 0 <= j < |was| ==> now[j] == if j < i then None else was[j])
    && (forall j :: 0 <= j < i && was[j].Some? ==> was[j].value in signalled)
  }

  lemma PassedNext(was: seq<Option<Fence>>, now: seq<Option<Fence>>, signalled: set<Fence>, i: nat)
    requires Passed(was, now, signalled, i) && i < |was|
    ensures now[i] == was[i]
    ensures was[i].Some? ==> was[i].value in signalled ==> Passed(was, now[i := None], signalled, i + 1)
    ensures was[i] == None ==> Passed(was, now[i := None], signalled, i + 1)
    ensures forall j :: 0 <= j < |was| ==> now[i := None][j] == if j <= i then None else was[j]
  {
  }

  lemma DroppedNext(was: seq<Option<Fence>>, dropped: seq<Fence>, i: nat, put: seq<Fence>)
    requires i < |was| && multiset(dropped) == Fences(was[..i])
    requires put == if was[i].Some? then [was[i].value] else []
    ensures multiset(dropped + put) == Fences(was[..i + 1])
  {
    FencesNext(was, i);
  }

  /** The work function's pass over the slots. `busy` is the first slot with a fence that has not signalled, or
      the number of slots: everything up to it is cleared, the callback is armed on the busy fence, and the
      references of the fences before it are dropped. */
  method HandleFences(slots: array<Option<Fence>>, signalled: set<Fence>)
    returns (armed: Option<Fence>, dropped: seq<Fence>, ghost busy: nat)
    modifies slots
    ensures busy <= slots.Length
    ensures forall j :: 0 <= j < busy && old(slots[..])[j].Some? ==> old(slots[..])[j].value in signalled
    ensures busy < slots.Length ==> armed == old(slots[..])[busy] && armed.Some? && armed.value !in signalled
    ensures busy == slots.Length ==> armed == None
    ensures forall j :: 0 <= j < slots.Length ==> slots[..][j] == if j <= busy then None else old(slots[..])[j]
    ensures multiset(dropped) == Fences(old(slots[..])[..busy])
  {
    dropped, armed := [], None;
    ghost var was := slots[..];
    for i := 0 to slots.Length
      invariant armed == None && Passed(was, slots[..], signalled, i)
      invariant multiset(dropped) == Fences(was[..i])
    {
      PassedNext(was, slots[..], signalled, i);
      var put;
      armed, put := HandleFence(slots, i, signalled);
      if armed.Some? {
        return armed, dropped, i;
      }
      DroppedNext(was, dropped, i, put);
      dropped := dropped + put;
    }
    busy := slots.Length;
  }
}
