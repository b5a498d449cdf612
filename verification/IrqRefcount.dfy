/** Interrupt enable counts (amdgpu_irq.c).

Each interrupt type has an atomic count of users. Taking the first reference or dropping the last one is
followed, later and under a lock, by an update that programs the hardware from the count it then reads. The
count itself is not protected by the lock.
 */
module IrqRefcount {
  import opened Wrappers

  // ---------------------------------------------------------------------------------------------
  // Concurrent callers, as a step relation

  /** An interrupt type: the number of its source, and the type. */
  datatype Line = Line(source: nat, kind: nat)
  type Tid = nat

  /** Where a call has got to: it must update, or it holds the lock, or it holds the lock and has read the count. */
  datatype Phase = MustUpdate(line: Line) | Locked(line: Line) | Decided(line: Line, enable: bool)

  datatype State = State(
    count: map<Line, int>,
    hw: map<Line, bool>,
    seen: map<Line, int>,              // history: the count that the last update of the line read
    lock: Option<Tid>,
    calls: map<Tid, Phase>)

  datatype Step =
    | Get(t: Tid, line: Line)          // atomic_inc_return
    | Put(t: Tid, line: Line)          // atomic_dec_and_test
    | Resume(t: Tid, line: Line)       // the reset-resume helper reaches this type
    | Lock(t: Tid) | Decide(t: Tid) | Program(t: Tid)
    | Reset(hw: map<Line, bool>)       // the hardware comes back in any state

  predicate Enabled(s: State, step: Step) {
    match step
    case Get(t, line) => t !in s.calls && line in s.count
    case Put(t, line) => t !in s.calls && line in s.count
    case Resume(t, line) => t !in s.calls && line in s.count
    case Lock(t) => t in s.calls && s.calls[t].MustUpdate? && s.lock == None
    case Decide(t) => t in s.calls && s.calls[t].Locked? && s.calls[t].line in s.count
    case Program(t) => t in s.calls && s.calls[t].Decided?
    case Reset(hw) => hw.Keys == s.hw.Keys
  }

  function Apply(s: State, step: Step): State
    requires Enabled(s, step)
  {
    match step
    case Get(t, line) =>
      var n := s.count[line] + 1;
      s.(count := s.count[line := n], calls := if n == 1 then s.calls[t := MustUpdate(line)] else s.calls)
    case Put(t, line) =>
      var n := s.count[line] - 1;
      s.(count := s.count[line := n], calls := if n == 0 then s.calls[t := MustUpdate(line)] else s.calls)
    case Resume(t, line) => s.(calls := s.calls[t := MustUpdate(line)])
    case Lock(t) => s.(lock := Some(t), calls := s.calls[t := Locked(s.calls[t].line)])
    case Decide(t) =>
      var line := s.calls[t].line;
      s.(calls := s.calls[t := Decided(line, s.count[line] != 0)], seen := s.seen[line := s.count[line]])
    case Program(t) =>
      var p := s.calls[t];
      s.(hw := s.hw[p.line := p.enable], lock := None, calls := s.calls - {t})
    case Reset(hw) => s.(hw := hw)
  }

  /** A call on `line` that has still to read the count. */
  ghost predicate Undecided(s: State, line: Line) {
    exists t :: t in s.calls && !s.calls[t].Decided? && s.calls[t].line == line
  }

  ghost predicate Pending(s: State, line: Line) {
    exists t :: t in s.calls && s.calls[t].line == line
  }

  ghost predicate WellFormed(s: State) {
    && s.count.Keys == s.hw.Keys == s.seen.Keys
    && (forall t :: t in s.calls ==> s.calls[t].line in s.count)
    && (forall t :: t in s.calls ==> (!s.calls[t].MustUpdate? <==> s.lock == Some(t)))
    && (s.lock.Some? ==> s.lock.value in s.calls)
  }

  /** The call that holds the lock, if any, has read the count of `line`. */
  ghost predicate DecidedOn(s: State, line: Line) {
    exists t :: t in s.calls && s.calls[t].Decided? && s.calls[t].line == line
  }

  /** Stale knowledge is always about to be corrected. Unless a call on the line has still to read the count, the
      last count read is positive exactly if the count is now; and the decision under way or, if there is none, the
      hardware is what that reading asked for. */
  ghost predicate Corrected(s: State, line: Line)
    requires line in s.count && line in s.hw && line in s.seen
  {
    || Undecided(s, line)
    || (&& (s.seen[line] > 0 <==> s.count[line] > 0)
        && (forall t :: t in s.calls && s.calls[t].Decided? && s.calls[t].line == line ==>
              s.calls[t].enable == (s.seen[line] != 0))
        && (!DecidedOn(s, line) ==> s.hw[line] == (s.seen[line] != 0)))
  }

  /** `dirty`: lines whose hardware state a reset has destroyed and over which the helper has not gone since. */
  ghost predicate Inv(s: State, dirty: set<Line>) {
    WellFormed(s) && forall line :: line in s.count && line !in dirty ==> Corrected(s, line)
  }

  function Init(lines: set<Line>): State {
    State(map l | l in lines :: 0, map l | l in lines :: false, map l | l in lines :: 0, None, map[])
  }

  /** Lines destroyed by a reset stay dirty until the reset-resume helper reaches them. */
  function Dirty(s: State, dirty: set<Line>, step: Step): set<Line>
    requires Enabled(s, step)
  {
    match step
    case Reset(_) => s.count.Keys
    case Resume(_, line) => dirty - {line}
    case _ => dirty
  }

  lemma InitInv(lines: set<Line>)
    ensures Inv(Init(lines), {})
  {
  }

  lemma StepKeepsWellFormed(s: State, step: Step)
    requires WellFormed(s) && Enabled(s, step)
    ensures WellFormed(Apply(s, step))
  {
    assert step.Program? ==> s.lock == Some(step.t);
  }

  lemma StartKeepsCorrected(s: State, step: Step, line: Line)
    requires WellFormed(s) && Enabled(s, step) && line in s.count && (step.Get? || step.Put? || step.Resume?)
    requires Corrected(s, line) || (step.Resume? && step.line == line)
    ensures Corrected(Apply(s, step), line)
  {
    var s' := Apply(s, step);
    if step.line == line && step.t in s'.calls { assert s'.calls[step.t] == MustUpdate(line); }
    KeepUndecided(s, s', line, step.t);
    assert forall t :: t in s'.calls && s'.calls[t].Decided? ==> t in s.calls && s'.calls[t] == s.calls[t];
    assert forall t :: t in s.calls && s.calls[t].Decided? ==> t in s'.calls && s'.calls[t] == s.calls[t];
  }

  lemma LockKeepsCorrected(s: State, t: Tid, line: Line)
    requires WellFormed(s) && Enabled(s, Lock(t)) && line in s.count && Corrected(s, line)
    ensures Corrected(Apply(s, Lock(t)), line)
  {
    var s' := Apply(s, Lock(t));
    if s.calls[t].line == line { assert s'.calls[t] == Locked(line); }
    KeepUndecided(s, s', line, t);
  }

  lemma DecideKeepsCorrected(s: State, t: Tid, line: Line)
    requires WellFormed(s) && Enabled(s, Decide(t)) && line in s.count && Corrected(s, line)
    ensures Corrected(Apply(s, Decide(t)), line)
  {
    var s' := Apply(s, Decide(t));
    if s.calls[t].line == line {
      assert s'.calls[t] == Decided(line, s.count[line] != 0);
    } else {
      KeepUndecided(s, s', line, t);
    }
  }

  lemma ProgramKeepsCorrected(s: State, t: Tid, line: Line)
    requires WellFormed(s) && Enabled(s, Program(t)) && line in s.count && Corrected(s, line)
    ensures Corrected(Apply(s, Program(t)), line)
  {
    KeepUndecided(s, Apply(s, Program(t)), line, t);
  }

  lemma StepKeepsCorrected(s: State, step: Step, line: Line)
    requires WellFormed(s) && Enabled(s, step) && line in s.count && !step.Reset?
    requires Corrected(s, line) || (step.Resume? && step.line == line)
    ensures Corrected(Apply(s, step), line)
  {
    match step
    case Lock(t) => LockKeepsCorrected(s, t, line);
    case Decide(t) => DecideKeepsCorrected(s, t, line);
    case Program(t) => ProgramKeepsCorrected(s, t, line);
    case _ => StartKeepsCorrected(s, step, line);
  }

  /** Undecided calls of other threads stay. */
  lemma KeepUndecided(s: State, s': State, line: Line, t: Tid)
    requires forall u :: u in s.calls && u != t ==> u in s'.calls && s'.calls[u] == s.calls[u]
    requires t in s.calls && !s.calls[t].Decided? && s.calls[t].line == line ==>
      t in s'.calls && !s'.calls[t].Decided? && s'.calls[t].line == line
    ensures Undecided(s, line) ==> Undecided(s', line)
  {
    if Undecided(s, line) {
      var u :| u in s.calls && !s.calls[u].Decided? && s.calls[u].line == line;
      assert u in s'.calls && !s'.calls[u].Decided? && s'.calls[u].line == line;
    }
  }

  lemma StepKeepsInv(s: State, step: Step, dirty: set<Line>)
    requires Inv(s, dirty) && Enabled(s, step)
    ensures Inv(Apply(s, step), Dirty(s, dirty, step))
  {
    StepKeepsWellFormed(s, step);
    if !step.Reset? {
      forall line | line in Apply(s, step).count && line !in Dirty(s, dirty, step)
        ensures Corrected(Apply(s, step), line)
      {
        StepKeepsCorrected(s, step, line);
      }
    }
  }

  /** The lines still dirty after a run. */
  ghost function DirtyAfter(run: seq<State>, steps: seq<Step>, n: nat): set<Line>
    requires n <= |steps| < |run| && forall i :: 0 <= i < |steps| ==> Enabled(run[i], steps[i])
  {
    if n == 0 then {} else Dirty(run[n - 1], DirtyAfter(run, steps, n - 1), steps[n - 1])
  }

  ghost predicate Run(lines: set<Line>, run: seq<State>, steps: seq<Step>) {
    && |run| == |steps| + 1 && run[0] == Init(lines)
    && forall i :: 0 <= i < |steps| ==> Enabled(run[i], steps[i]) && run[i + 1] == Apply(run[i], steps[i])
  }

  lemma {:induction false} RunKeepsInv(lines: set<Line>, run: seq<State>, steps: seq<Step>, n: nat)
    requires Run(lines, run, steps) && n <= |steps|
    ensures Inv(run[n], DirtyAfter(run, steps, n))
  {
    if n == 0 {
      InitInv(lines);
    } else {
      RunKeepsInv(lines, run, steps, n - 1);
      StepKeepsInv(run[n - 1], steps[n - 1], DirtyAfter(run, steps, n - 1));
    }
  }

  /** Whatever the interleaving: once no call on a line is in progress, and the helper has been over it since the
      last reset, its hardware is enabled exactly if the last count read was not 0; and that agrees with someone
      holding a reference if and only if the last count read was not negative. */
  lemma QuiescentProgrammedIff(lines: set<Line>, run: seq<State>, steps: seq<Step>, n: nat, line: Line)
    requires Run(lines, run, steps) && n <= |steps| && line in run[n].count
    requires !Pending(run[n], line) && line !in DirtyAfter(run, steps, n)
    ensures line in run[n].hw && line in run[n].seen && run[n].hw[line] == (run[n].seen[line] != 0)
    ensures run[n].hw[line] == (run[n].count[line] > 0) <==> run[n].seen[line] >= 0
  {
    RunKeepsInv(lines, run, steps, n);
    assert Corrected(run[n], line);
  }

  /** References taken on a line less those dropped, in the first `n` steps. */
  function Held(steps: seq<Step>, line: Line, n: nat): int
    requires n <= |steps|
  {
    if n == 0 then 0 else
    var step := steps[n - 1];
    Held(steps, line, n - 1) +
      if step.Get? && step.line == line then 1 else if step.Put? && step.line == line then -1 else 0
  }

  /** In every state of every run the count of a line is the number of references held. */
  lemma {:induction false} CountIsHeld(lines: set<Line>, run: seq<State>, steps: seq<Step>, n: nat, line: Line)
    requires Run(lines, run, steps) && n <= |steps| && line in lines
    ensures line in run[n].count && run[n].count[line] == Held(steps, line, n)
  {
    if n > 0 { CountIsHeld(lines, run, steps, n - 1, line); }
  }

  /** Callers that drop only references they hold keep the count, and with it every reading, from going negative. */
  lemma {:induction false} BalancedNeverNegative(lines: set<Line>, run: seq<State>, steps: seq<Step>, n: nat,
                                                 line: Line)
    requires Run(lines, run, steps) && n <= |steps| && line in lines
    requires forall i :: 0 <= i < n && steps[i].Put? && steps[i].line == line ==> run[i].count[line] >= 1
    ensures line in run[n].count && line in run[n].seen && run[n].count[line] >= 0 && run[n].seen[line] >= 0
  {
    if n > 0 { BalancedNeverNegative(lines, run, steps, n - 1, line); }
  }

  /** So with balanced callers of a line, its hardware is enabled exactly if someone holds a reference, once no call
      on it is in progress. */
  lemma BalancedMeansProgrammed(lines: set<Line>, run: seq<State>, steps: seq<Step>, n: nat, line: Line)
    requires Run(lines, run, steps) && n <= |steps| && line in lines
    requires forall i :: 0 <= i < n && steps[i].Put? && steps[i].line == line ==> run[i].count[line] >= 1
    requires !Pending(run[n], line) && line !in DirtyAfter(run, steps, n)
    ensures line in run[n].hw && line in run[n].count && run[n].hw[line] == (run[n].count[line] > 0)
  {
    BalancedNeverNegative(lines, run, steps, n, line);
    QuiescentProgrammedIff(lines, run, steps, n, line);
  }

  lemma Extend(lines: set<Line>, run: seq<State>, steps: seq<Step>, step: Step, s: State)
    requires Run(lines, run, steps) && Enabled(run[|steps|], step) && s == Apply(run[|steps|], step)
    ensures Run(lines, run + [s], steps + [step])
  {
    var run', steps' := run + [s], steps + [step];
    forall i | 0 <= i < |steps'|
      ensures Enabled(run'[i], steps'[i]) && run'[i + 1] == Apply(run'[i], steps'[i])
    {
      if i < |steps| { assert run'[i] == run[i] && steps'[i] == steps[i] && run'[i + 1] == run[i + 1]; }
    }
  }

  const LINE := Line(0, 0)

  /** A state with one line. */
  function Single(count: int, hw: bool, seen: int, lock: Option<Tid>, calls: map<Tid, Phase>): State {
    State(map[LINE := count], map[LINE := hw], map[LINE := seen], lock, calls)
  }

  lemma FirstSteps(hw: bool, seen: int)
    ensures var s0, s1 := Single(0, hw, seen, None, map[]), Single(1, hw, seen, None, map[0 := MustUpdate(LINE)]);
      && Enabled(s0, Get(0, LINE)) && Apply(s0, Get(0, LINE)) == s1
      && Enabled(s1, Put(1, LINE))
      && Apply(s1, Put(1, LINE)) == Single(0, hw, seen, None, map[0 := MustUpdate(LINE), 1 := MustUpdate(LINE)])
  {
  }

  lemma ThirdStep(hw: bool, seen: int, calls: map<Tid, Phase>)
    requires 2 !in calls
    ensures var s := Single(0, hw, seen, None, calls);
      Enabled(s, Put(2, LINE)) && Apply(s, Put(2, LINE)) == Single(-1, hw, seen, None, calls)
  {
  }

  /** Taking, dropping and dropping once more, before either update has run. */
  lemma UnbalancedStart() returns (run: seq<State>, steps: seq<Step>)
    ensures Run({LINE}, run, steps)
    ensures run[|steps|] == Single(-1, false, 0, None, map[0 := MustUpdate(LINE), 1 := MustUpdate(LINE)])
  {
    run, steps := [Init({LINE})], [];
    assert Init({LINE}) == Single(0, false, 0, None, map[]);
    FirstSteps(false, 0);
    var s1 := Single(1, false, 0, None, map[0 := MustUpdate(LINE)]);
    Extend({LINE}, run, steps, Get(0, LINE), s1);
    run, steps := run + [s1], steps + [Get(0, LINE)];
    var s2 := Single(0, false, 0, None, map[0 := MustUpdate(LINE), 1 := MustUpdate(LINE)]);
    Extend({LINE}, run, steps, Put(1, LINE), s2);
    run, steps := run + [s2], steps + [Put(1, LINE)];
    ThirdStep(false, 0, s2.calls);
    var s3 := Single(-1, false, 0, None, s2.calls);
    Extend({LINE}, run, steps, Put(2, LINE), s3);
    run, steps := run + [s3], steps + [Put(2, LINE)];
  }

  /** The three steps of an update by `t`. */
  lemma UpdateSteps(run: seq<State>, steps: seq<Step>, t: Tid, hw: bool, seen: int, others: map<Tid, Phase>)
    returns (run': seq<State>, steps': seq<Step>)
    requires Run({LINE}, run, steps) && t !in others
    requires run[|steps|] == Single(-1, hw, seen, None, others[t := MustUpdate(LINE)])
    ensures Run({LINE}, run', steps') && run'[|steps'|] == Single(-1, true, -1, None, others)
  {
    var s1 := Single(-1, hw, seen, Some(t), others[t := Locked(LINE)]);
    Extend({LINE}, run, steps, Lock(t), s1);
    run', steps' := run + [s1], steps + [Lock(t)];
    var s2 := Single(-1, hw, -1, Some(t), others[t := Decided(LINE, true)]);
    Extend({LINE}, run', steps', Decide(t), s2);
    run', steps' := run' + [s2], steps' + [Decide(t)];
    var s3 := Single(-1, true, -1, None, others);
    assert others[t := Decided(LINE, true)] - {t} == others;
    Extend({LINE}, run', steps', Program(t), s3);
    run', steps' := run' + [s3], steps' + [Program(t)];
  }

  /** One Put too many can leave the hardware enabled with nobody using it. */
  lemma UnbalancedPutMisprograms() returns (run: seq<State>, steps: seq<Step>)
    ensures Run({LINE}, run, steps) && run[|steps|] == Single(-1, true, -1, None, map[])
  {
    run, steps := UnbalancedStart();
    run, steps := UpdateSteps(run, steps, 0, false, 0, map[1 := MustUpdate(LINE)]);
    run, steps := UpdateSteps(run, steps, 1, true, -1, map[]);
  }

  // ---------------------------------------------------------------------------------------------
  // Calls that do not overlap, as runs

  predicate Starts(step: Step) {
    step.Get? || step.Put? || step.Resume?
  }

  ghost predicate Quiet(s: State) {
    s.count.Keys == s.hw.Keys == s.seen.Keys && s.lock == None && s.calls == map[]
  }

  /** A call that nobody disturbs: its first step and, if that asks for it, the three steps of the update. */
  ghost function Alone(s: State, first: Step): State
    requires Quiet(s) && Starts(first) && Enabled(s, first)
  {
    var t, s1 := first.t, Apply(s, first);
    if t !in s1.calls then s1 else
    var s2 := Apply(s1, Lock(t));
    var s3 := Apply(s2, Decide(t));
    Apply(s3, Program(t))
  }

  /** The three steps of an update program the line from its count. */
  lemma UpdateMeans(s: State, t: Tid, line: Line)
    requires s.lock == None && s.calls == map[t := MustUpdate(line)] && line in s.count
    ensures Enabled(s, Lock(t)) && Enabled(Apply(s, Lock(t)), Decide(t))
    ensures var s3 := Apply(Apply(s, Lock(t)), Decide(t));
      && Enabled(s3, Program(t))
      && Apply(s3, Program(t)) ==
           s.(hw := s.hw[line := s.count[line] != 0], seen := s.seen[line := s.count[line]], calls := map[])
  {
    var s3 := Apply(Apply(s, Lock(t)), Decide(t));
    assert s3.calls - {t} == map[];
  }

  /** The count changes by one; the hardware follows it if the first reference came or the last one went. */
  lemma AloneMeans(s: State, first: Step)
    requires Quiet(s) && Starts(first) && Enabled(s, first)
    ensures var line := first.line;
      var n := s.count[line] + if first.Get? then 1 else if first.Put? then -1 else 0;
      var update := first.Resume? || n == if first.Get? then 1 else 0;
      && Quiet(Alone(s, first)) && Alone(s, first).count == s.count[line := n]
      && Alone(s, first).hw == (if update then s.hw[line := n != 0] else s.hw)
      && Alone(s, first).seen == if update then s.seen[line := n] else s.seen
  {
    var s1 := Apply(s, first);
    if first.t in s1.calls { UpdateMeans(s1, first.t, first.line); }
    if first.Resume? { assert s.count[first.line := s.count[first.line]] == s.count; }
  }

  ghost predicate NoReset(steps: seq<Step>) {
    forall i :: 0 <= i < |steps| ==> !steps[i].Reset?
  }

  /** An undisturbed call continues any run that has come to rest. */
  lemma AloneIsRun(lines: set<Line>, run: seq<State>, steps: seq<Step>, first: Step)
      returns (run': seq<State>, steps': seq<Step>)
    requires Run(lines, run, steps) && Quiet(run[|steps|]) && Starts(first) && Enabled(run[|steps|], first)
    ensures Run(lines, run', steps') && run'[|steps'|] == Alone(run[|steps|], first)
    ensures NoReset(steps) ==> NoReset(steps')
  {
    var t, s1 := first.t, Apply(run[|steps|], first);
    Extend(lines, run, steps, first, s1);
    run', steps' := run + [s1], steps + [first];
    if t in s1.calls {
      var s2 := Apply(s1, Lock(t));
      Extend(lines, run', steps', Lock(t), s2);
      run', steps' := run' + [s2], steps' + [Lock(t)];
      var s3 := Apply(s2, Decide(t));
      Extend(lines, run', steps', Decide(t), s3);
      run', steps' := run' + [s3], steps' + [Decide(t)];
      var s4 := Apply(s3, Program(t));
      Extend(lines, run', steps', Program(t), s4);
      run', steps' := run' + [s4], steps' + [Program(t)];
    }
  }

  /** Undisturbed calls, one after the other, on a device with the given lines. */
  ghost function Sequence(lines: set<Line>, calls: seq<Step>): (r: State)
    requires forall i :: 0 <= i < |calls| ==> Starts(calls[i]) && calls[i].line in lines
    ensures Quiet(r) && r.count.Keys == lines
  {
    if calls == [] then Init(lines) else
    var before := Sequence(lines, calls[..|calls| - 1]);
    AloneMeans(before, calls[|calls| - 1]);
    Alone(before, calls[|calls| - 1])
  }

  lemma {:induction false} SequenceIsRun(lines: set<Line>, calls: seq<Step>) returns (run: seq<State>, steps: seq<Step>)
    requires forall i :: 0 <= i < |calls| ==> Starts(calls[i]) && calls[i].line in lines
    ensures Run(lines, run, steps) && NoReset(steps) && run[|steps|] == Sequence(lines, calls)
  {
    if calls == [] {
      run, steps := [Init(lines)], [];
    } else {
      run, steps := SequenceIsRun(lines, calls[..|calls| - 1]);
      run, steps := AloneIsRun(lines, run, steps, calls[|calls| - 1]);
    }
  }

  lemma {:induction false} NoResetNotDirty(run: seq<State>, steps: seq<Step>, n: nat)
    requires n <= |steps| < |run| && NoReset(steps) && forall i :: 0 <= i < |steps| ==> Enabled(run[i], steps[i])
    ensures DirtyAfter(run, steps, n) == {}
  {
    if n > 0 { NoResetNotDirty(run, steps, n - 1); }
  }

  /** After calls that do not overlap, a line is enabled exactly if its last reading was not 0, and rightly so exactly
      if that reading was not negative. */
  lemma SequenceProgrammedIff(lines: set<Line>, calls: seq<Step>, line: Line)
    requires (forall i :: 0 <= i < |calls| ==> Starts(calls[i]) && calls[i].line in lines) && line in lines
    ensures var s := Sequence(lines, calls);
      s.hw[line] == (s.seen[line] != 0) && (s.hw[line] == (s.count[line] > 0) <==> s.seen[line] >= 0)
  {
    var run, steps := SequenceIsRun(lines, calls);
    NoResetNotDirty(run, steps, |steps|);
    QuiescentProgrammedIff(lines, run, steps, |steps|, line);
  }

  /** The helper's calls on the given lines, one after the other; with interrupts off (`on`) it disables them. */
  ghost function Helped(s: State, on: bool, lines: seq<Line>): (r: State)
    requires Quiet(s) && forall l :: l in lines ==> l in s.count
    ensures Quiet(r) && r.count == s.count
  {
    if lines == [] then s else
    var n := |lines| - 1;
    var before, l := Helped(s, on, lines[..n]), lines[n];
    assert l in lines;
    HelpedLine(before, l);
    if on then Alone(before, Resume(0, l)) else Disabled(before, l)
  }

  ghost function Disabled(s: State, l: Line): State
    requires l in s.count
  {
    s.(hw := s.hw[l := false], seen := s.seen[l := s.count[l]])
  }

  lemma HelpedLine(s: State, l: Line)
    requires Quiet(s) && l in s.count
    ensures Alone(s, Resume(0, l)) == s.(hw := s.hw[l := s.count[l] != 0], seen := s.seen[l := s.count[l]])
    ensures Quiet(Alone(s, Resume(0, l))) && Quiet(Disabled(s, l))
  {
    AloneMeans(s, Resume(0, l));
    assert s.count[l := s.count[l]] == s.count;
  }

  /** After the helper has been over a line, its hardware follows its count; other lines are as before. */
  lemma {:induction false} HelpedMeans(s: State, on: bool, lines: seq<Line>, l: Line)
    requires Quiet(s) && (forall x :: x in lines ==> x in s.count) && l in s.hw
    ensures l in Helped(s, on, lines).hw
    ensures Helped(s, on, lines).hw[l] == if l in lines then on && s.count[l] != 0 else s.hw[l]
    decreases |lines|
  {
    if lines != [] {
      var n := |lines| - 1;
      HelpedMeans(s, on, lines[..n], l);
      assert lines[n] in lines && lines == lines[..n] + [lines[n]];
      HelpedLine(Helped(s, on, lines[..n]), lines[n]);
    }
  }

  // ---------------------------------------------------------------------------------------------
  // The routines themselves

  datatype Ret = Ok | ENOENT | EINVAL

  /** A registered source: how many types it has, and whether `funcs->set` is present. Registration allocates the
      counts of a source that has types. */
  datatype Source = Source(numTypes: nat, hasSet: bool)

  class Device {
    var irqEnabled: bool
    const sources: seq<Option<Source>>
    var count: map<Line, int>
    var hw: map<Line, bool>
    ghost var seen: map<Line, int>

    ghost predicate Valid()
      reads this
    {
      Quiet(View()) && forall l :: Exists(l) ==> l in count
    }

    /** The state between calls. */
    ghost function View(): State
      reads this
    {
      State(count, hw, seen, None, map[])
    }

    predicate Exists(l: Line) {
      l.source < |sources| && sources[l.source].Some? && l.kind < sources[l.source].value.numTypes
    }

    /** Before any use. */
    constructor (sources: seq<Option<Source>>, lines: set<Line>)
      requires forall l: Line ::
        l.source < |sources| && sources[l.source].Some? && l.kind < sources[l.source].value.numTypes ==> l in lines
      ensures Valid() && this.sources == sources && View() == Init(lines) && irqEnabled
    {
      this.sources, irqEnabled := sources, true;
      count, hw, seen := map l | l in lines :: 0, map l | l in lines :: false, map l | l in lines :: 0;
    }

    predicate Usable(l: Line)
      reads this`irqEnabled
    {
      irqEnabled && Exists(l) && sources[l.source].value.hasSet
    }

    /** `amdgpu_irq_enabled`. */
    predicate IsEnabled(l: Line)
      requires Exists(l) ==> l in count
      reads this`irqEnabled, this`count
    {
      Usable(l) && count[l] != 0
    }

    /** `amdgpu_irq_update`, undisturbed; the driver calls it only for sources with a `set` function. */
    method Update(l: Line)
      requires Valid() && Exists(l) && sources[l.source].value.hasSet
      modifies this`hw, this`seen
      ensures Valid()
      ensures View() == if irqEnabled then Alone(old(View()), Resume(0, l)) else Disabled(old(View()), l)
    {
      HelpedLine(View(), l);
      var enable := IsEnabled(l);
      hw, seen := hw[l := enable], seen[l := count[l]];
    }

    /** `amdgpu_irq_get`: an undisturbed Get, or an error and no change. */
    method Acquire(l: Line) returns (r: Ret)
      requires Valid() && l.source < |sources| && sources[l.source].Some?
      modifies this`count, this`hw, this`seen
      ensures Valid()
      ensures var source := sources[l.source].value;
        r == if !irqEnabled then ENOENT else if l.kind >= source.numTypes || !source.hasSet then EINVAL else Ok
      ensures View() == if r == Ok then Alone(old(View()), Get(0, l)) else old(View())
    {
      if !irqEnabled {
        return ENOENT;
      }
      if l.kind >= sources[l.source].value.numTypes {
        return EINVAL;
      }
      if !sources[l.source].value.hasSet {
        return EINVAL;
      }
      AloneMeans(View(), Get(0, l));
      count := count[l := count[l] + 1];
      if count[l] == 1 {
        HelpedLine(View(), l);
        Update(l);
      }
      return Ok;
    }

    /** `amdgpu_irq_put`: an undisturbed Put, or an error and no change. */
    method Release(l: Line) returns (r: Ret)
      requires Valid() && l.source < |sources| && sources[l.source].Some?
      modifies this`count, this`hw, this`seen
      ensures Valid()
      ensures var source := sources[l.source].value;
        r == if !irqEnabled then ENOENT else if l.kind >= source.numTypes || !source.hasSet then EINVAL else Ok
      ensures View() == if r == Ok then Alone(old(View()), Put(0, l)) else old(View())
    {
      if !irqEnabled {
        return ENOENT;
      }
      if l.kind >= sources[l.source].value.numTypes {
        return EINVAL;
      }
      if !sources[l.source].value.hasSet {
        return EINVAL;
      }
      AloneMeans(View(), Put(0, l));
      count := count[l := count[l] - 1];
      if count[l] == 0 {
        HelpedLine(View(), l);
        Update(l);
      }
      return Ok;
    }

    /** What the helper has done after the lines `visited`, starting from `s`. */
    ghost predicate Over(s: State, visited: seq<Line>)
      reads this
    {
      && Valid() && Quiet(s) && s.count == count && (forall l :: l in visited ==> l in s.count)
      && View() == Helped(s, irqEnabled, visited)
    }

    method ResumeLine(l: Line, ghost s: State, ghost visited: seq<Line>)
      requires Over(s, visited) && Exists(l) && sources[l.source].value.hasSet
      modifies this`hw, this`seen
      ensures Over(s, visited + [l])
    {
      Update(l);
      assert (visited + [l])[..|visited|] == visited;
    }

    /** `amdgpu_irq_gpu_reset_resume_helper`: the helper's calls on exactly the existing lines, from any hardware
        state; after it every one is programmed from its count, and no other hardware has changed. */
    method ResumeAll() returns (ghost visited: seq<Line>)
      requires Valid() && forall i :: 0 <= i < |sources| && sources[i].Some? ==> sources[i].value.hasSet
      modifies this`hw, this`seen
      ensures Over(old(View()), visited) && forall l :: l in visited <==> Exists(l)
      ensures forall l :: l in old(hw) ==>
        l in hw && hw[l] == if Exists(l) then irqEnabled && count[l] != 0 else old(hw)[l]
    {
      ghost var s := View();
      visited := [];
      for i := 0 to |sources|
        invariant Over(s, visited) && Reached(visited, i, 0)
      {
        if sources[i].Some? { visited := ResumeSource(i, s, visited); }
      }
      forall l | l in s.hw {
        HelpedMeans(s, irqEnabled, visited, l);
      }
    }

    /** The types of source `i`. */
    method ResumeSource(i: nat, ghost s: State, ghost before: seq<Line>) returns (ghost visited: seq<Line>)
      requires Over(s, before) && Reached(before, i, 0)
      requires i < |sources| && sources[i].Some? && sources[i].value.hasSet
      modifies this`hw, this`seen
      ensures Over(s, visited) && Reached(visited, i + 1, 0)
    {
      visited := before;
      for j := 0 to sources[i].value.numTypes
        invariant Over(s, visited) && Reached(visited, i, j)
      {
        ResumeLine(Line(i, j), s, visited);
        ReachedNext(visited, i, j);
        visited := visited + [Line(i, j)];
      }
      ReachedEnd(visited, i);
    }

    lemma ReachedNext(visited: seq<Line>, i: nat, j: nat)
      requires Reached(visited, i, j) && Exists(Line(i, j))
      ensures Reached(visited + [Line(i, j)], i, j + 1)
    {
      var more := visited + [Line(i, j)];
      forall l: Line
        ensures l in more <==> Exists(l) && (l.source < i || (l.source == i && l.kind < j + 1))
      {
        assert l in more <==> l in visited || l == Line(i, j);
      }
    }

    lemma ReachedEnd(visited: seq<Line>, i: nat)
      requires i < |sources| && sources[i].Some? && Reached(visited, i, sources[i].value.numTypes)
      ensures Reached(visited, i + 1, 0)
    {
    }

    /** The helper has been over the existing lines before type `j` of source `i`. */
    ghost predicate Reached(visited: seq<Line>, i: nat, j: nat) {
      forall l: Line :: l in visited <==> Exists(l) && (l.source < i || (l.source == i && l.kind < j))
    }
  }
}
