/** Context tracking on a hardware ring (amdgpu_ib_schedule in amdgpu_ib.c).

A frame is what one call leaves on the ring. The context switch is requested with an indirect buffer (IB), and preamble
buffers are dropped when the context is still loaded. A GPU reset clears the hardware, not the driver's note of the
context.
 */
module IbSchedule {
  import opened Wrappers

  type Ctx = nat

  datatype Ib = Ib(id: nat, preamble: bool)

  /** An indirect buffer on the ring, with or without a request to switch the context. */
  datatype Emit = Emit(ib: Ib, switch: bool)

  datatype Frame = Frame(ctx: Ctx, ibs: seq<Emit>)

  datatype Ret = Ok | EINVAL | Failed(code: int)

  /** A call: its context (0 without a job), its buffers, whether preambles must be run anyway (the job says they are
      new, and the ring has context control), whether the ring is ready and the job has its VM id, and what the
      parts that may fail return. */
  datatype Call = Call(ctx: Ctx, ibs: seq<Ib>, first: bool, ready: bool, alloc: int, flush: int, fence: int)

  // ---------------------------------------------------------------------------------------------
  // One frame

  /** What the loop emits. */
  function Emitted(ibs: seq<Ib>, skip: bool, switch: bool): seq<Emit> {
    if ibs == [] then []
    else if ibs[0].preamble && skip then Emitted(ibs[1..], skip, switch)
    else [Emit(ibs[0], switch)] + Emitted(ibs[1..], skip, false)
  }

  /** `at` lists, in order, the buffers to run: all but the preambles, and these too unless they are skipped. */
  ghost predicate Runs(ibs: seq<Ib>, skip: bool, at: seq<nat>) {
    && (forall i, j :: 0 <= i < j < |at| ==> at[i] < at[j])
    && (forall k: nat :: k in at <==> k < |ibs| && !(ibs[k].preamble && skip))
  }

  lemma RunsNext(ibs: seq<Ib>, skip: bool, rest: seq<nat>, at: seq<nat>)
    requires ibs != [] && Runs(ibs[1..], skip, rest)
    requires at == (if ibs[0].preamble && skip then [] else [0]) + Shifted(rest)
    ensures Runs(ibs, skip, at)
  {
    forall k: nat
      ensures k in at <==> k < |ibs| && !(ibs[k].preamble && skip)
    {
      ShiftedIn(rest, k);
      if k > 0 { assert k - 1 in rest <==> k < |ibs| && !(ibs[k].preamble && skip); }
    }
  }

  ghost function Shifted(at: seq<nat>): seq<nat> {
    seq(|at|, j requires 0 <= j < |at| => at[j] + 1)
  }

  lemma ShiftedIn(at: seq<nat>, k: nat)
    ensures k in Shifted(at) <==> k > 0 && k - 1 in at
  {
    if k > 0 && k - 1 in at {
      var j :| 0 <= j < |at| && at[j] == k - 1;
      assert Shifted(at)[j] == k;
    }
  }

  /** `emits` are the buffers `at`, and only the first can ask for a switch. */
  ghost predicate Shows(emits: seq<Emit>, ibs: seq<Ib>, at: seq<nat>, switch: bool) {
    && |emits| == |at|
    && forall j :: 0 <= j < |at| ==> at[j] < |ibs| && emits[j] == Emit(ibs[at[j]], switch && j == 0)
  }

  lemma ShowsNext(ibs: seq<Ib>, skip: bool, switch: bool, rest: seq<nat>, at: seq<nat>)
    requires ibs != [] && at == (if ibs[0].preamble && skip then [] else [0]) + Shifted(rest)
    requires var more := switch && ibs[0].preamble && skip; Shows(Emitted(ibs[1..], skip, more), ibs[1..], rest, more)
    ensures Shows(Emitted(ibs, skip, switch), ibs, at, switch)
  {
    if ibs[0].preamble && skip {
      ShowsShifted(Emitted(ibs[1..], skip, switch), ibs, rest, switch);
      assert at == Shifted(rest);
    } else {
      var emits := Emitted(ibs[1..], skip, false);
      ShowsShifted(emits, ibs, rest, false);
      ShowsFirst(emits, ibs, Shifted(rest), switch);
      assert Emitted(ibs, skip, switch) == [Emit(ibs[0], switch)] + emits;
    }
  }

  lemma ShowsShifted(emits: seq<Emit>, ibs: seq<Ib>, rest: seq<nat>, switch: bool)
    requires ibs != [] && Shows(emits, ibs[1..], rest, switch)
    ensures Shows(emits, ibs, Shifted(rest), switch)
  {
  }

  lemma ShowsFirst(emits: seq<Emit>, ibs: seq<Ib>, at: seq<nat>, switch: bool)
    requires ibs != [] && Shows(emits, ibs, at, false)
    ensures Shows([Emit(ibs[0], switch)] + emits, ibs, [0] + at, switch)
  {
  }

  /** Exactly the buffers to run are emitted, in order, and only the first can ask for a switch. */
  lemma {:induction false} EmittedMeans(ibs: seq<Ib>, skip: bool, switch: bool) returns (at: seq<nat>)
    ensures Runs(ibs, skip, at) && Shows(Emitted(ibs, skip, switch), ibs, at, switch)
  {
    if ibs == [] {
      at := [];
    } else {
      var rest := EmittedMeans(ibs[1..], skip, switch && ibs[0].preamble && skip);
      at := (if ibs[0].preamble && skip then [] else [0]) + Shifted(rest);
      RunsNext(ibs, skip, rest, at);
      ShowsNext(ibs, skip, switch, rest, at);
    }
  }

  function FrameOf(current: Ctx, c: Call): Frame {
    Frame(c.ctx, Emitted(c.ibs, current == c.ctx && !c.first, current != c.ctx))
  }

  /** What a call for `c` puts on the ring: buffers `at` of the call, in order. They are all its buffers, except for
      preambles if the context is the current one and the job does not insist. The first asks for a switch if the
      context is another. */
  ghost predicate Emits(f: Frame, current: Ctx, c: Call, at: seq<nat>) {
    && f.ctx == c.ctx && |f.ibs| == |at|
    && (forall i, j :: 0 <= i < j < |at| ==> at[i] < at[j])
    && (forall k: nat :: k in at <==> k < |c.ibs| && (!c.ibs[k].preamble || current != c.ctx || c.first))
    && (forall j :: 0 <= j < |at| ==>
          at[j] < |c.ibs| && f.ibs[j].ib == c.ibs[at[j]] && (f.ibs[j].switch <==> j == 0 && current != c.ctx))
  }

  lemma FrameMeans(current: Ctx, c: Call) returns (at: seq<nat>)
    ensures Emits(FrameOf(current, c), current, c, at)
  {
    at := EmittedMeans(c.ibs, current == c.ctx && !c.first, current != c.ctx);
  }

  // ---------------------------------------------------------------------------------------------
  // Runs

  datatype State = State(current: Ctx, frames: seq<Frame>)

  predicate Succeeds(c: Call) {
    c.ibs != [] && c.ready && c.alloc == 0 && c.flush == 0 && c.fence == 0
  }

  function Apply(s: State, c: Call): State {
    if Succeeds(c) then State(c.ctx, s.frames + [FrameOf(s.current, c)]) else s
  }

  /** A call, or a GPU reset. */
  datatype Event = Do(call: Call) | Reset

  function Run(events: seq<Event>): State {
    if events == [] then State(0, [])
    else
      var s, e := Run(events[..|events| - 1]), events[|events| - 1];
      if e.Do? then Apply(s, e.call) else s
  }

  /** The context the hardware has loaded after the first `n` buffers of a frame. */
  function LoadedIn(before: Option<Ctx>, f: Frame, n: nat): Option<Ctx>
    requires n <= |f.ibs|
  {
    if n == 0 then before else if f.ibs[n - 1].switch then Some(f.ctx) else LoadedIn(before, f, n - 1)
  }

  /** The context loaded after a run; none after a reset. */
  function Loaded(events: seq<Event>): Option<Ctx> {
    if events == [] then Some(0)
    else
      var rest, e := events[..|events| - 1], events[|events| - 1];
      if e.Reset? then None
      else if !Succeeds(e.call) then Loaded(rest)
      else var f := FrameOf(Run(rest).current, e.call); LoadedIn(Loaded(rest), f, |f.ibs|)
  }

  /** There was a reset, and since the last one no successful call was for another context than the noted one. */
  predicate Stale(events: seq<Event>) {
    if events == [] then false
    else
      var rest, e := events[..|events| - 1], events[|events| - 1];
      e.Reset? || (Stale(rest) && !(Succeeds(e.call) && e.call.ctx != Run(rest).current))
  }

  lemma {:induction false} NoSwitch(before: Option<Ctx>, f: Frame, m: nat, n: nat)
    requires m <= n <= |f.ibs| && forall j :: m <= j < n ==> !f.ibs[j].switch
    ensures LoadedIn(before, f, n) == LoadedIn(before, f, m)
  {
    if m < n { NoSwitch(before, f, m, n - 1); }
  }

  /** A frame for another context loads it with its first buffer; one for the noted context loads nothing. */
  lemma FrameLoads(before: Option<Ctx>, current: Ctx, c: Call, n: nat)
    requires n <= |FrameOf(current, c).ibs|
    ensures LoadedIn(before, FrameOf(current, c), n) == if n > 0 && current != c.ctx then Some(c.ctx) else before
  {
    var f := FrameOf(current, c);
    var at := FrameMeans(current, c);
    if current == c.ctx {
      NoSwitch(before, f, 0, n);
    } else if n > 0 {
      NoSwitch(before, f, 1, n);
      assert f.ibs[0].switch;
      assert LoadedIn(before, f, 1) == Some(c.ctx);
    }
  }

  lemma SwitchEmitted(current: Ctx, c: Call)
    requires c.ibs != [] && current != c.ctx
    ensures FrameOf(current, c).ibs != []
  {
    var at := FrameMeans(current, c);
    assert 0 in at;
  }

  /** After every run the hardware has loaded the context the ring has noted, exactly if the note is not stale;
      otherwise it has none. */
  lemma {:induction false} CurrentIsLoadedIff(events: seq<Event>)
    ensures Loaded(events) == if Stale(events) then None else Some(Run(events).current)
  {
    if events != [] {
      var rest, e := events[..|events| - 1], events[|events| - 1];
      CurrentIsLoadedIff(rest);
      if e.Do? && Succeeds(e.call) {
        var current := Run(rest).current;
        if current != e.call.ctx { SwitchEmitted(current, e.call); }
        FrameLoads(Loaded(rest), current, e.call, |FrameOf(current, e.call).ibs|);
      }
    }
  }

  /** In every run, a successful call puts one more frame on the ring; all its buffers run in its own context exactly if
      the note was not stale or the call is for another context. */
  lemma RunsInContextIff(events: seq<Event>, c: Call, n: nat)
    requires Succeeds(c) && n < |FrameOf(Run(events).current, c).ibs|
    ensures Run(events + [Do(c)]).frames == Run(events).frames + [FrameOf(Run(events).current, c)]
    ensures LoadedIn(Loaded(events), FrameOf(Run(events).current, c), n + 1) == Some(c.ctx)
       <==> !Stale(events) || c.ctx != Run(events).current
  {
    assert (events + [Do(c)])[..|events|] == events;
    CurrentIsLoadedIff(events);
    FrameLoads(Loaded(events), Run(events).current, c, n + 1);
  }

  /** After a call and a reset the note still names the context of the call, and the hardware has loaded none. */
  lemma ResetLeavesStaleNote(c: Call)
    requires Succeeds(c) && c.ctx != 0
    ensures var events := [Do(c), Reset]; Stale(events) && Run(events).current == c.ctx && Loaded(events) == None
  {
    var events := [Do(c), Reset];
    assert [Do(c)][..0] == [];
    assert events[..1] == [Do(c)];
  }

  /** After a reset, a call for another context than the noted one makes all later calls run in their own contexts,
      until the next reset. The ring tests after a reset, which have context 0, are such calls unless 0 was noted. */
  lemma {:induction false} OtherContextRecovers(events: seq<Event>, c: Call, more: seq<Call>)
    requires Succeeds(c) && c.ctx != Run(events).current
    ensures !Stale(events + [Do(c)] + Calls(more))
    decreases |more|
  {
    var base := events + [Do(c)];
    if more == [] {
      assert base + Calls(more) == base && base[..|events|] == events;
    } else {
      var n := |more| - 1;
      OtherContextRecovers(events, c, more[..n]);
      assert Calls(more) == Calls(more[..n]) + [Do(more[n])];
      assert (base + Calls(more))[..|base + Calls(more)| - 1] == base + Calls(more[..n]);
    }
  }

  function Calls(calls: seq<Call>): seq<Event> {
    seq(|calls|, i requires 0 <= i < |calls| => Do(calls[i]))
  }

  /** A preamble is left out exactly for the noted context, unless the job insists; every other buffer is emitted, in
      order. The noted context is then loaded exactly if the note is not stale. */
  lemma PreambleDroppedOnlyIfNoted(events: seq<Event>, c: Call) returns (at: seq<nat>)
    ensures Emits(FrameOf(Run(events).current, c), Run(events).current, c, at)
    ensures Run(events).current == c.ctx ==> (Loaded(events) == Some(c.ctx) <==> !Stale(events))
  {
    CurrentIsLoadedIff(events);
    at := FrameMeans(Run(events).current, c);
  }

  // ---------------------------------------------------------------------------------------------
  // amdgpu_ib_schedule

  lemma NextIb(ibs: seq<Ib>, i: nat, skip: bool, switch: bool, done: seq<Emit>)
    requires i < |ibs|
    ensures done + Emitted(ibs[i..], skip, switch) ==
      if ibs[i].preamble && skip then done + Emitted(ibs[i + 1..], skip, switch)
      else (done + [Emit(ibs[i], switch)]) + Emitted(ibs[i + 1..], skip, false)
  {
    assert ibs[i..][1..] == ibs[i + 1..];
  }

  class Ring {
    var current: Ctx
    var frames: seq<Frame>
    var pending: seq<Emit>             // written, not committed

    function View(): State
      reads this
    {
      State(current, frames)
    }

    constructor ()
      ensures View() == Run([]) && pending == []
    {
      current, frames, pending := 0, [], [];
    }

    /** The loop over the buffers. */
    method EmitAll(ibs: seq<Ib>, skip: bool, needSwitch: bool)
      requires pending == []
      modifies this`pending
      ensures pending == Emitted(ibs, skip, needSwitch)
    {
      var switch := needSwitch;
      for i := 0 to |ibs|
        invariant pending + Emitted(ibs[i..], skip, switch) == Emitted(ibs, skip, needSwitch)
      {
        NextIb(ibs, i, skip, switch, pending);
        if ibs[i].preamble && skip { continue; }
        pending := pending + [Emit(ibs[i], switch)];
        switch := false;
      }
    }

    /** `amdgpu_ib_schedule`. */
    method Schedule(c: Call) returns (r: Ret)
      requires pending == []
      modifies this
      ensures View() == Apply(old(View()), c) && pending == []
      ensures r == Ok ==> |frames| == |old(frames)| + 1
      ensures r == Ok ==> exists at :: Emits(frames[|old(frames)|], old(current), c, at)
      ensures r == if c.ibs == [] || !c.ready then EINVAL else if c.alloc != 0 then Failed(c.alloc)
                   else if c.flush != 0 then Failed(c.flush) else if c.fence != 0 then Failed(c.fence) else Ok
    {
      if c.ibs == [] || !c.ready { return EINVAL; }
      if c.alloc != 0 { return Failed(c.alloc); }
      if c.flush != 0 { return Failed(c.flush); }
      ghost var at := FrameMeans(current, c);
      EmitAll(c.ibs, current == c.ctx && !c.first, current != c.ctx);
      if c.fence != 0 {
        pending := [];                 // amdgpu_ring_undo
        return Failed(c.fence);
      }
      current := c.ctx;
      frames, pending := frames + [Frame(c.ctx, pending)], [];
      assert Emits(frames[|old(frames)|], old(current), c, at);
      r := Ok;
    }
  }
}
