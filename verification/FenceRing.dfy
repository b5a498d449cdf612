/** The hardware fence ring of one engine (amdgpu_fence.c, amdgpu_ib.c), as a step relation.

One emitter allocates sequence numbers, stores a fence in a slot, possibly a second one in the same frame
(the VM flush has its own), and commits the frame or undoes it; the GPU executes what is committed and writes
the sequence numbers to a memory word; any number of processors (interrupt handler, fallback timer, counters)
compare that word with `last_seq` and signal the fences in between. Each `Step` is one access to shared memory.
An undone fence keeps its number and its slot, so the numbers the GPU writes increase but have gaps.

The driver's guards and computations use its own 32-bit values. The unbounded counters (`bumped`,
`written`, `claimed`, and the fields named `lastAt`, `wordAt`, `pos`, `hi`) record history. Only the GPU
uses one, to execute committed frames in order; and a fence object is named by its place in emission
order.
 */
module FenceRing {
  import opened Bits
  import opened Wrappers

  /** A fence object, named by its place in emission order, counting from 1. */
  type Fence = nat

  /** Where `amdgpu_fence_emit` and the commit after it have got to. `num` is the 32-bit number. */
  datatype Emitter =
    | Idle
    | Bumped(num: nat)
    | Waiting(num: nat, prev: Fence)
    | Ready(num: nat)
    | Stored(num: nat)

  /** Where one `amdgpu_fence_process` call has got to, with its 32-bit locals. */
  datatype Processor =
    | GotLast(last: nat, lastAt: nat)
    | GotWord(last: nat, word: nat, lastAt: nat, wordAt: nat)
    | Walking(cur: nat, end: nat, pos: nat, hi: nat)
    | Fetched(cur: nat, end: nat, fence: Option<Fence>, pos: nat, hi: nat)
    | Cleared(cur: nat, end: nat, fence: Option<Fence>, pos: nat, hi: nat)

  type Tid = nat

  /** A fence command on the hardware ring: its 32-bit number, and the fence it is for. */
  datatype Command = Command(num: nat, fence: Fence)

  datatype State = State(
    k: nat,                          // the ring has 2^k slots
    syncSeq: nat, lastSeq: nat, word: nat,
    slots: seq<Option<Fence>>,
    frames: seq<Command>,            // fence commands on the hardware ring, in order
    committed: nat,                  // how many of them the GPU may execute, and how many it has
    executed: nat,
    emitter: Emitter,
    procs: map<Tid, Processor>,      // the calls in progress
    bumped: nat, written: nat, claimed: nat,
    signals: seq<Fence>,             // every successful fence_signal call, in order
    claims: seq<(nat, nat)>)         // ranges (lo, hi] taken over by successful exchanges

  datatype Step =
    | EmitBump | EmitLook | EmitWake | EmitStore | Commit | Undo
    | GpuWrite | ForceCompletion
    | ReadLast(t: Tid) | ReadWord(t: Tid) | CasOk(t: Tid) | CasFail(t: Tid)
    | Fetch(t: Tid) | Clear(t: Tid) | Signal(t: Tid)

  function Mask(s: State): nat {
    Pow2(s.k) - 1
  }

  function Init(k: nat): State {
    State(k, 0, 0, 0, seq(Pow2(k), _ => None), [], 0, 0, Idle, map[], 0, 0, 0, [], [])
  }

  predicate SlotInRange(s: State, i: nat) {
    i < |s.slots|
  }

  predicate Enabled(s: State, step: Step) {
    match step
    case EmitBump => s.emitter.Idle? || s.emitter.Stored?
    case EmitLook => s.emitter.Bumped? && SlotInRange(s, And(s.emitter.num, Mask(s)))
    case EmitWake => s.emitter.Waiting? && s.emitter.prev in s.signals
    case EmitStore => s.emitter.Ready? && SlotInRange(s, And(s.emitter.num, Mask(s)))
    case Commit => s.emitter.Stored?
    case Undo => s.emitter.Stored? && s.committed <= |s.frames|
    case GpuWrite => s.executed < s.committed <= |s.frames|
    case ForceCompletion => true
    case ReadLast(t) => t !in s.procs
    case ReadWord(t) => t in s.procs && s.procs[t].GotLast?
    case CasOk(t) => t in s.procs && s.procs[t].GotWord? && s.lastSeq == s.procs[t].last
    case CasFail(t) => t in s.procs && s.procs[t].GotWord? && s.lastSeq != s.procs[t].last
    case Fetch(t) =>
      t in s.procs && s.procs[t].Walking? && SlotInRange(s, And(s.procs[t].cur + 1, Mask(s)))
    case Clear(t) => t in s.procs && s.procs[t].Fetched? && SlotInRange(s, s.procs[t].cur)
    case Signal(t) => t in s.procs && s.procs[t].Cleared?
  }

  /** Thread `t` finishes (or, after a failed exchange, starts over). */
  function Leave(s: State, t: Tid): State {
    s.(procs := s.procs - {t})
  }

  function Apply(s: State, step: Step): State
    requires Enabled(s, step)
  {
    match step
    case EmitBump =>
      var num := (s.syncSeq + 1) % WORD;
      s.(syncSeq := num, bumped := s.bumped + 1, emitter := Bumped(num))
    case EmitLook =>
      var num := s.emitter.num;
      var prev := s.slots[And(num, Mask(s))];
      s.(emitter := if prev.Some? && prev.value !in s.signals then Waiting(num, prev.value) else Ready(num))
    case EmitWake => s.(emitter := Ready(s.emitter.num))
    case EmitStore =>
      var num := s.emitter.num;
      s.(slots := s.slots[And(num, Mask(s)) := Some(s.bumped)], frames := s.frames + [Command(num, s.bumped)],
         emitter := Stored(num))
    case Commit => s.(committed := |s.frames|, emitter := Idle)
    case Undo => s.(frames := s.frames[..s.committed], emitter := Idle)
    case GpuWrite =>
      var c := s.frames[s.executed];
      s.(word := c.num, written := c.fence, executed := s.executed + 1)
    case ForceCompletion =>
      // what is on the ring is not executed any more
      s.(word := s.syncSeq, written := s.bumped, executed := s.committed)
    case ReadLast(t) => s.(procs := s.procs[t := GotLast(s.lastSeq, s.claimed)])
    case ReadWord(t) =>
      var p := s.procs[t];
      s.(procs := s.procs[t := GotWord(p.last, s.word, p.lastAt, s.written)])
    case CasOk(t) =>
      var p := s.procs[t];
      if p.word == p.last then Leave(s, t)
      else s.(lastSeq := p.word, claimed := p.wordAt, claims := s.claims + [(s.claimed, p.wordAt)],
              procs := s.procs[t := Walking(And(p.last, Mask(s)), And(p.word, Mask(s)), s.claimed, p.wordAt)])
    case CasFail(t) => Leave(s, t)
    case Fetch(t) =>
      var p := s.procs[t];
      var cur := And(p.cur + 1, Mask(s));
      s.(procs := s.procs[t := Fetched(cur, p.end, s.slots[cur], p.pos + 1, p.hi)])
    case Clear(t) =>
      var p := s.procs[t];
      s.(slots := s.slots[p.cur := None], procs := s.procs[t := Cleared(p.cur, p.end, p.fence, p.pos, p.hi)])
    case Signal(t) =>
      var p := s.procs[t];
      var s' := if p.fence.Some? then s.(signals := s.signals + [p.fence.value]) else s;
      if p.cur == p.end then Leave(s', t)
      else s'.(procs := s.procs[t := Walking(p.cur, p.end, p.pos, p.hi)])
  }

  /** A successful exchange does not install a word that others have since moved past. */
  predicate Fresh(s: State, step: Step) {
    step.CasOk? && Enabled(s, step) ==>
      var p := s.procs[step.t];
      p.word == p.last || s.claimed <= p.wordAt
  }

  /** The one assumption about a run: between a thread's read of `last_seq` and its successful exchange fewer
      than 2^32 fences are claimed. */
  predicate Timely(s: State, step: Step) {
    step.CasOk? && Enabled(s, step) ==> s.claimed < s.procs[step.t].lastAt + WORD
  }

  /** No fence of the frame being built is passed by a forced completion before it is stored, or before another of
      that frame. */
  predicate Orderly(s: State, step: Step) {
    step.ForceCompletion? ==> s.emitter.Idle? || (s.emitter.Stored? && |s.frames| == s.committed + 1)
  }

  // ---------------------------------------------------------------------------------------------
  // The invariant

  /** How many fences have been stored in the slot array. */
  function StoredCount(s: State): nat {
    if s.emitter.Idle? || s.emitter.Stored? || s.bumped == 0 then s.bumped else s.bumped - 1
  }

  predicate CountersOk(s: State) {
    && 1 <= s.k <= 31
    && |s.slots| == Pow2(s.k)
    && s.syncSeq == s.bumped % WORD
    && s.lastSeq == s.claimed % WORD
    && s.word == s.written % WORD
    && s.claimed <= s.written <= StoredCount(s)
    && (!s.emitter.Idle? ==> s.emitter.num == s.syncSeq && s.bumped >= 1)
  }

  /** The commands on the ring carry increasing numbers of stored fences, and those not executed are not behind the
      word. */
  ghost predicate FramesOk(s: State) {
    && s.executed <= s.committed <= |s.frames|
    && (forall j :: 0 <= j < |s.frames| ==> CommandOk(s, s.frames[j]))
    && (forall i, j :: 0 <= i < j < |s.frames| ==> s.frames[i].fence < s.frames[j].fence)
    && (forall j :: s.executed <= j < |s.frames| ==> s.written <= s.frames[j].fence)
    && (s.emitter.Idle? ==> s.committed == |s.frames|)
    && (s.emitter.Stored? ==> s.committed < |s.frames| && s.frames[|s.frames| - 1].fence == s.bumped)
  }

  predicate CommandOk(s: State, c: Command) {
    c.num == c.fence % WORD && 1 <= c.fence <= StoredCount(s)
  }

  /** The last number the word will show for what is committed. */
  function Horizon(s: State): nat
    requires s.committed <= |s.frames|
  {
    if s.executed < s.committed then s.frames[s.committed - 1].fence else s.written
  }

  /** Fences of `p`'s range that it has not taken out of their slot. */
  predicate InSlot(p: Processor, q: Fence) {
    match p
    case Walking(_, _, pos, hi) => pos < q <= hi
    case Fetched(_, _, _, pos, hi) => pos <= q <= hi
    case Cleared(_, _, _, pos, hi) => pos < q <= hi
    case _ => false
  }

  /** Fences that `p` has claimed and not signalled. */
  predicate Owes(p: Processor, q: Fence) {
    match p
    case Walking(_, _, pos, hi) => pos < q <= hi
    case Fetched(_, _, _, pos, hi) => pos <= q <= hi
    case Cleared(_, _, _, pos, hi) => pos <= q <= hi
    case _ => false
  }

  predicate ProcOk(s: State, p: Processor) {
    var m := Pow2(s.k);
    match p
    case GotLast(last, lastAt) => last == lastAt % WORD && lastAt <= s.claimed
    case GotWord(last, word, lastAt, wordAt) =>
      last == lastAt % WORD && word == wordAt % WORD && lastAt <= s.claimed && lastAt <= wordAt <= s.written
    case Walking(cur, end, pos, hi) =>
      cur == pos % m && end == hi % m && pos < hi <= pos + m && hi <= s.claimed
    case Fetched(cur, end, fence, pos, hi) =>
      cur == pos % m && end == hi % m && 1 <= pos <= hi < pos + m && hi <= s.claimed && fence == Some(pos)
    case Cleared(cur, end, fence, pos, hi) =>
      cur == pos % m && end == hi % m && 1 <= pos <= hi < pos + m && hi <= s.claimed && fence == Some(pos)
  }

  ghost predicate ProcsOk(s: State) {
    forall t :: t in s.procs ==> ProcOk(s, s.procs[t])
  }

  ghost predicate Disjoint(s: State) {
    forall t, u, q :: t in s.procs && u in s.procs && Owes(s.procs[t], q) && Owes(s.procs[u], q) ==> t == u
  }

  predicate Holds(s: State, q: Fence)
    requires |s.slots| == Pow2(s.k)
  {
    s.slots[q % Pow2(s.k)] == Some(q)
  }

  /** Unclaimed stored fences, and those of a range not yet walked, sit in their slots. */
  ghost predicate Present(s: State)
    requires |s.slots| == Pow2(s.k)
  {
    && (forall q :: s.claimed < q <= StoredCount(s) ==> Holds(s, q))
    && (forall t, q :: t in s.procs && InSlot(s.procs[t], q) ==> Holds(s, q))
    && (forall t :: t in s.procs && s.procs[t].Cleared? ==> !Holds(s, s.procs[t].pos))
  }

  /** A slot holds nothing but the newest fence of its residue, unsignalled. */
  ghost predicate SlotsOk(s: State) {
    forall i :: 0 <= i < |s.slots| && s.slots[i].Some? ==>
      var q := s.slots[i].value;
      q % Pow2(s.k) == i && 1 <= q <= StoredCount(s) < q + Pow2(s.k) && q !in s.signals
  }

  /** What the emitter knows about the slot it is about to overwrite. */
  predicate EmitterOk(s: State)
    requires |s.slots| == Pow2(s.k)
  {
    var slot := s.slots[s.bumped % Pow2(s.k)];
    && (s.emitter.Waiting? ==>
          && 1 <= s.emitter.prev == s.bumped - Pow2(s.k)
          && (slot == None || slot == Some(s.emitter.prev)))
    && (s.emitter.Ready? ==> slot == None)
  }

  ghost predicate NoDuplicates(xs: seq<Fence>) {
    forall i, j :: 0 <= i < j < |xs| ==> xs[i] != xs[j]
  }

  /** The claimed fences are the signalled ones and, disjointly, the owed ones. */
  ghost predicate SignalsOk(s: State) {
    && NoDuplicates(s.signals)
    && (forall f :: f in s.signals ==> 1 <= f <= s.claimed)
    && (forall f, t :: f in s.signals && t in s.procs ==> !Owes(s.procs[t], f))
    && (forall f :: 1 <= f <= s.claimed && f !in s.signals ==> SomeoneOwes(s, f))
  }

  ghost predicate SomeoneOwes(s: State, f: Fence) {
    exists t :: t in s.procs && Owes(s.procs[t], f)
  }

  /** Claimed ranges are non-empty, at most a ring long, contiguous and end at `claimed`. */
  ghost predicate ClaimsOk(s: State) {
    && (forall i :: 0 <= i < |s.claims| ==> s.claims[i].0 < s.claims[i].1 <= s.claims[i].0 + Pow2(s.k))
    && (forall i :: 0 < i < |s.claims| ==> s.claims[i - 1].1 == s.claims[i].0)
    && (|s.claims| == 0 ==> s.claimed == 0)
    && (|s.claims| > 0 ==> s.claims[0].0 == 0 && s.claims[|s.claims| - 1].1 == s.claimed)
  }

  ghost predicate Inv(s: State) {
    && CountersOk(s)
    && FramesOk(s)
    && ProcsOk(s)
    && Disjoint(s)
    && Present(s)
    && SlotsOk(s)
    && EmitterOk(s)
    && SignalsOk(s)
    && ClaimsOk(s)
  }

  // ---------------------------------------------------------------------------------------------
  // Every step keeps the invariant

  lemma InitInv(k: nat)
    requires 1 <= k <= 31
    ensures Inv(Init(k))
  {
  }

  lemma SlotIndex(s: State, x: nat)
    requires CountersOk(s)
    ensures And(x, Mask(s)) == x % Pow2(s.k) < |s.slots|
    ensures x % WORD % Pow2(s.k) == x % Pow2(s.k)
  {
    AndMask(x, s.k);
    ModOfWord(x, s.k);
  }

  lemma SlotCount(s: State)
    requires CountersOk(s)
    ensures 2 <= Pow2(s.k) < WORD
  {
    RingBelowWord(s.k);
  }

  /** The fences waiting to be claimed never exceed the ring. */
  lemma WindowBound(s: State)
    requires CountersOk(s) && Present(s)
    ensures StoredCount(s) - s.claimed <= Pow2(s.k)
  {
    var m, q := Pow2(s.k), s.claimed + 1;
    ModShift(q, m, 1);
    assert q <= StoredCount(s) ==> Holds(s, q);
    assert q + m <= StoredCount(s) ==> Holds(s, q + m);
  }

  /** Steps that do not touch the ring of commands. */
  lemma FramesFrame(s: State, s': State)
    requires FramesOk(s) && s'.frames == s.frames && s'.committed == s.committed && s'.executed == s.executed
    requires s'.written == s.written && s'.bumped == s.bumped
    requires s'.emitter.Idle? == s.emitter.Idle? && s'.emitter.Stored? == s.emitter.Stored?
    ensures FramesOk(s')
  {
    assert StoredCount(s') == StoredCount(s);
    assert forall c: Command :: CommandOk(s', c) == CommandOk(s, c);
  }

  /** Steps that touch neither slots nor signals, and claim nothing that is not in its slot. */
  lemma SlotsFrame(s: State, s': State)
    requires |s.slots| == Pow2(s.k) && Present(s) && SlotsOk(s)
    requires s'.k == s.k && s'.slots == s.slots && s'.signals == s.signals
    requires StoredCount(s') == StoredCount(s) && s'.claimed >= s.claimed
    requires forall u: Tid, q: Fence :: u in s'.procs && InSlot(s'.procs[u], q) ==>
               s.claimed < q <= StoredCount(s) || (u in s.procs && InSlot(s.procs[u], q))
    requires forall u :: u in s'.procs && s'.procs[u].Cleared? ==> u in s.procs && s.procs[u] == s'.procs[u]
    ensures Present(s') && SlotsOk(s')
  {
    assert forall q :: Holds(s', q) == Holds(s, q);
  }

  /** Steps after which every thread owes the same fences. */
  lemma OwesFrame(s: State, s': State)
    requires Disjoint(s) && SignalsOk(s)
    requires s'.signals == s.signals && s'.claimed == s.claimed
    requires forall u, q :: u in s'.procs && Owes(s'.procs[u], q) ==> u in s.procs && Owes(s.procs[u], q)
    requires forall u, q :: u in s.procs && Owes(s.procs[u], q) ==> u in s'.procs && Owes(s'.procs[u], q)
    ensures Disjoint(s') && SignalsOk(s')
  {
    forall f | SomeoneOwes(s, f)
      ensures SomeoneOwes(s', f)
    {
      var u :| u in s.procs && Owes(s.procs[u], f);
      assert u in s'.procs && Owes(s'.procs[u], f);
    }
  }

  lemma EmitBumpKeepsInv(s: State)
    requires Inv(s) && Enabled(s, EmitBump)
    ensures Inv(Apply(s, EmitBump))
  {
    var s' := Apply(s, EmitBump);
    ModSucc(s.bumped, WORD);
    SlotsFrame(s, s');
    OwesFrame(s, s');
  }

  /** The fence in the slot of the next one is exactly one ring older. */
  lemma WaitsForPrevious(s: State, q: Fence)
    requires CountersOk(s) && SlotsOk(s) && s.emitter.Bumped? && s.slots[s.bumped % Pow2(s.k)] == Some(q)
    ensures 1 <= q == s.bumped - Pow2(s.k)
  {
    var m := Pow2(s.k);
    ModShift(q, m, 1);
    ModWindow(s.bumped, q + m, m);
  }

  lemma EmitLookKeepsInv(s: State)
    requires Inv(s) && Enabled(s, EmitLook)
    ensures Inv(Apply(s, EmitLook))
  {
    var s' := Apply(s, EmitLook);
    SlotIndex(s, s.bumped);
    SlotIndex(s, s.emitter.num);
    if s'.emitter.Waiting? { WaitsForPrevious(s, s'.emitter.prev); }
    FramesFrame(s, s');
    SlotsFrame(s, s');
    OwesFrame(s, s');
  }

  lemma EmitWakeKeepsInv(s: State)
    requires Inv(s) && Enabled(s, EmitWake)
    ensures Inv(Apply(s, EmitWake))
  {
    var s' := Apply(s, EmitWake);
    FramesFrame(s, s');
    SlotsFrame(s, s');
    OwesFrame(s, s');
  }

  /** The slot being overwritten is empty, so no other stored fence shares its residue. */
  lemma EmitStoreFillsEmptySlot(s: State)
    requires Inv(s) && Enabled(s, EmitStore)
    ensures var i := s.bumped % Pow2(s.k);
      && s.slots[i] == None
      && Apply(s, EmitStore).slots == s.slots[i := Some(s.bumped)]
      && forall q: Fence :: Holds(s, q) ==> q % Pow2(s.k) != i && Holds(Apply(s, EmitStore), q)
  {
    SlotIndex(s, s.bumped);
    SlotIndex(s, s.emitter.num);
  }

  lemma EmitStoreKeepsPresent(s: State)
    requires Inv(s) && Enabled(s, EmitStore)
    ensures Present(Apply(s, EmitStore))
  {
    var s' := Apply(s, EmitStore);
    EmitStoreFillsEmptySlot(s);
    forall q | s'.claimed < q <= StoredCount(s')
      ensures Holds(s', q)
    {
      if q <= StoredCount(s) { assert Holds(s, q); }
    }
    forall t | t in s'.procs && s'.procs[t].Cleared?
      ensures !Holds(s', s'.procs[t].pos)
    {
      assert ProcOk(s, s.procs[t]) && !Holds(s, s.procs[t].pos);
    }
  }

  lemma EmitStoreKeepsSlots(s: State)
    requires Inv(s) && Enabled(s, EmitStore)
    ensures SlotsOk(Apply(s, EmitStore)) && EmitterOk(Apply(s, EmitStore))
  {
    var s' := Apply(s, EmitStore);
    EmitStoreFillsEmptySlot(s);
    forall i | 0 <= i < |s.slots| && s.slots[i].Some?
      ensures StoredCount(s') < s.slots[i].value + Pow2(s.k)
    {
      assert Holds(s, s.slots[i].value);
      ModShift(s.slots[i].value, Pow2(s.k), 1);
    }
  }

  lemma EmitStoreKeepsFrames(s: State)
    requires Inv(s) && Enabled(s, EmitStore)
    ensures FramesOk(Apply(s, EmitStore)) && CountersOk(Apply(s, EmitStore))
  {
    EmitStoreFillsEmptySlot(s);
    var s' := Apply(s, EmitStore);
    assert forall j :: 0 <= j < |s.frames| ==> s'.frames[j] == s.frames[j] && CommandOk(s, s.frames[j]);
  }

  lemma EmitStoreKeepsInv(s: State)
    requires Inv(s) && Enabled(s, EmitStore)
    ensures Inv(Apply(s, EmitStore))
  {
    EmitStoreKeepsFrames(s);
    EmitStoreKeepsPresent(s);
    EmitStoreKeepsSlots(s);
    OwesFrame(s, Apply(s, EmitStore));
  }

  lemma CommitKeepsInv(s: State)
    requires Inv(s) && Enabled(s, Commit)
    ensures Inv(Apply(s, Commit))
  {
    var s' := Apply(s, Commit);
    SlotsFrame(s, s');
    OwesFrame(s, s');
  }

  /** Undoing the frame takes back its commands; its fences stay in their slots. */
  lemma UndoKeepsInv(s: State)
    requires Inv(s) && Enabled(s, Undo)
    ensures Inv(Apply(s, Undo))
  {
    var s' := Apply(s, Undo);
    SlotsFrame(s, s');
    OwesFrame(s, s');
  }

  lemma GpuWriteKeepsCounters(s: State)
    requires CountersOk(s) && FramesOk(s) && ClaimsOk(s) && Enabled(s, GpuWrite)
    ensures var s' := Apply(s, GpuWrite); CountersOk(s') && FramesOk(s') && ClaimsOk(s')
  {
    var s' := Apply(s, GpuWrite);
    assert CommandOk(s, s.frames[s.executed]);
    assert forall c: Command :: CommandOk(s', c) == CommandOk(s, c);
  }

  lemma ForceKeepsCounters(s: State)
    requires CountersOk(s) && FramesOk(s) && ClaimsOk(s) && Orderly(s, ForceCompletion)
    ensures var s' := Apply(s, ForceCompletion); CountersOk(s') && FramesOk(s') && ClaimsOk(s')
  {
    assert forall c: Command :: CommandOk(Apply(s, ForceCompletion), c) == CommandOk(s, c);
  }

  lemma WordKeepsCounters(s: State, step: Step)
    requires Inv(s) && (step.GpuWrite? || step.ForceCompletion?) && Enabled(s, step) && Orderly(s, step)
    ensures CountersOk(Apply(s, step)) && FramesOk(Apply(s, step)) && ClaimsOk(Apply(s, step))
  {
    if step.GpuWrite? { GpuWriteKeepsCounters(s); } else { ForceKeepsCounters(s); }
  }

  lemma WordKeepsProcs(s: State, step: Step)
    requires Inv(s) && (step.GpuWrite? || step.ForceCompletion?) && Enabled(s, step) && Orderly(s, step)
    ensures ProcsOk(Apply(s, step))
  {
    var s' := Apply(s, step);
    WordKeepsCounters(s, step);
    assert s.written <= s'.written;
    forall u | u in s'.procs
      ensures ProcOk(s', s'.procs[u])
    {
      assert ProcOk(s, s.procs[u]);
    }
  }

  lemma WordKeepsInv(s: State, step: Step)
    requires Inv(s) && (step.GpuWrite? || step.ForceCompletion?) && Enabled(s, step) && Orderly(s, step)
    ensures Inv(Apply(s, step))
  {
    WordKeepsCounters(s, step);
    WordKeepsProcs(s, step);
    SlotsFrame(s, Apply(s, step));
    OwesFrame(s, Apply(s, step));
  }

  lemma ReadsKeepProcs(s: State, step: Step)
    requires Inv(s) && (step.ReadLast? || step.ReadWord? || step.CasFail?) && Enabled(s, step)
    ensures ProcsOk(Apply(s, step))
  {
    forall u | u in Apply(s, step).procs
      ensures ProcOk(Apply(s, step), Apply(s, step).procs[u])
    {
      if u in s.procs { assert ProcOk(s, s.procs[u]); }
    }
  }

  lemma ReadsKeepSlots(s: State, step: Step)
    requires Inv(s) && (step.ReadLast? || step.ReadWord? || step.CasFail?) && Enabled(s, step)
    ensures Present(Apply(s, step)) && SlotsOk(Apply(s, step)) && EmitterOk(Apply(s, step))
  {
    SlotsFrame(s, Apply(s, step));
  }

  lemma ReadsKeepCounters(s: State, step: Step)
    requires Inv(s) && (step.ReadLast? || step.ReadWord? || step.CasFail?) && Enabled(s, step)
    ensures CountersOk(Apply(s, step)) && FramesOk(Apply(s, step)) && ClaimsOk(Apply(s, step))
  {
    FramesFrame(s, Apply(s, step));
  }

  lemma ReadsKeepOwed(s: State, step: Step)
    requires Inv(s) && (step.ReadLast? || step.ReadWord? || step.CasFail?) && Enabled(s, step)
    ensures Disjoint(Apply(s, step)) && SignalsOk(Apply(s, step))
  {
    OwesFrame(s, Apply(s, step));
  }

  lemma ReadsKeepInv(s: State, step: Step)
    requires Inv(s) && (step.ReadLast? || step.ReadWord? || step.CasFail?) && Enabled(s, step)
    ensures Inv(Apply(s, step))
  {
    ReadsKeepCounters(s, step);
    ReadsKeepProcs(s, step);
    ReadsKeepSlots(s, step);
    ReadsKeepOwed(s, step);
  }

  /** The exchange compares 32-bit values, so it is fooled only by a thread 2^32 fences late. */
  lemma FreshUnlessFullWrap(s: State, t: Tid)
    requires Inv(s) && Enabled(s, CasOk(t)) && Timely(s, CasOk(t))
    ensures s.procs[t].lastAt == s.claimed && Fresh(s, CasOk(t))
  {
    ModWindow(s.procs[t].lastAt, s.claimed, WORD);
  }

  /** The thread takes over exactly the fences after `claimed`, at most a ring of them. */
  lemma CasTakesRange(s: State, t: Tid)
    requires Inv(s) && Enabled(s, CasOk(t)) && Fresh(s, CasOk(t))
    ensures var s' := Apply(s, CasOk(t)); var p := s.procs[t];
      && s'.procs.Keys <= s.procs.Keys
      && (forall u :: u in s.procs && u != t ==> u in s'.procs && s'.procs[u] == s.procs[u])
      && s.claimed <= s'.claimed <= s.written && s'.lastSeq == s'.claimed % WORD
      && s'.claimed - s.claimed <= Pow2(s.k)
      && (t in s'.procs <==> s'.claimed > s.claimed)
      && (t in s'.procs ==> s'.claimed == p.wordAt
                            && s'.procs[t] == Walking(s.claimed % Pow2(s.k), p.wordAt % Pow2(s.k), s.claimed, p.wordAt)
                            && s'.claims == s.claims + [(s.claimed, p.wordAt)])
      && (t !in s'.procs ==> s'.claims == s.claims)
  {
    var p := s.procs[t];
    WindowBound(s);
    SlotIndex(s, s.claimed);
    SlotIndex(s, p.wordAt);
    SlotIndex(s, p.last);
    SlotIndex(s, p.word);
  }

  lemma CasKeepsSignals(s: State, t: Tid)
    requires Inv(s) && Enabled(s, CasOk(t)) && Fresh(s, CasOk(t))
    ensures Disjoint(Apply(s, CasOk(t))) && SignalsOk(Apply(s, CasOk(t)))
  {
    var s' := Apply(s, CasOk(t));
    CasTakesRange(s, t);
    forall f | 1 <= f <= s'.claimed && f !in s'.signals
      ensures SomeoneOwes(s', f)
    {
      if f > s.claimed {
        assert t in s'.procs && Owes(s'.procs[t], f);
      } else {
        var u :| u in s.procs && Owes(s.procs[u], f);
        assert u in s'.procs && s'.procs[u] == s.procs[u];
      }
    }
  }

  lemma CasKeepsProcs(s: State, t: Tid)
    requires Inv(s) && Enabled(s, CasOk(t)) && Fresh(s, CasOk(t))
    ensures ProcsOk(Apply(s, CasOk(t)))
  {
    var s' := Apply(s, CasOk(t));
    CasTakesRange(s, t);
    forall u | u in s'.procs
      ensures ProcOk(s', s'.procs[u])
    {
      if u != t { assert ProcOk(s, s.procs[u]); }
    }
  }

  lemma CasKeepsSlots(s: State, t: Tid)
    requires Inv(s) && Enabled(s, CasOk(t)) && Fresh(s, CasOk(t))
    ensures Present(Apply(s, CasOk(t))) && SlotsOk(Apply(s, CasOk(t))) && EmitterOk(Apply(s, CasOk(t)))
  {
    var s' := Apply(s, CasOk(t));
    CasTakesRange(s, t);
    SlotsFrame(s, s');
  }

  lemma ClaimsExtend(s: State, s': State)
    requires ClaimsOk(s) && s'.k == s.k && s.claimed < s'.claimed <= s.claimed + Pow2(s.k)
    requires s'.claims == s.claims + [(s.claimed, s'.claimed)]
    ensures ClaimsOk(s')
  {
    var n := |s.claims|;
    assert forall i :: 0 <= i < n ==> s'.claims[i] == s.claims[i];
    assert s'.claims[n] == (s.claimed, s'.claimed);
  }

  lemma CasKeepsCounters(s: State, t: Tid)
    requires Inv(s) && Enabled(s, CasOk(t)) && Fresh(s, CasOk(t))
    ensures CountersOk(Apply(s, CasOk(t))) && ClaimsOk(Apply(s, CasOk(t)))
  {
    var s' := Apply(s, CasOk(t));
    CasTakesRange(s, t);
    assert ProcOk(s, s.procs[t]);
    if t in s'.procs { ClaimsExtend(s, s'); }
  }

  lemma CasKeepsInv(s: State, t: Tid)
    requires Inv(s) && Enabled(s, CasOk(t)) && Fresh(s, CasOk(t))
    ensures Inv(Apply(s, CasOk(t)))
  {
    CasKeepsCounters(s, t);
    FramesFrame(s, Apply(s, CasOk(t)));
    CasKeepsSignals(s, t);
    CasKeepsProcs(s, t);
    CasKeepsSlots(s, t);
  }

  /** The next masked slot is the one of the next counter, and it holds that fence. */
  lemma FetchGetsNext(s: State, t: Tid)
    requires Inv(s) && Enabled(s, Fetch(t))
    ensures var p := s.procs[t]; var m := Pow2(s.k);
      Apply(s, Fetch(t)).procs == s.procs[t := Fetched((p.pos + 1) % m, p.end, Some(p.pos + 1), p.pos + 1, p.hi)]
  {
    var p := s.procs[t];
    SlotIndex(s, p.cur + 1);
    ModSucc(p.pos, Pow2(s.k));
    assert InSlot(p, p.pos + 1);
    assert Holds(s, p.pos + 1);
  }

  lemma FetchKeepsProcs(s: State, t: Tid)
    requires Inv(s) && Enabled(s, Fetch(t))
    ensures ProcsOk(Apply(s, Fetch(t)))
  {
    var s' := Apply(s, Fetch(t));
    FetchGetsNext(s, t);
    forall u | u in s'.procs
      ensures ProcOk(s', s'.procs[u])
    {
      assert ProcOk(s, s.procs[u]);
    }
  }

  lemma FetchKeepsSlots(s: State, t: Tid)
    requires Inv(s) && Enabled(s, Fetch(t))
    ensures Present(Apply(s, Fetch(t))) && SlotsOk(Apply(s, Fetch(t))) && EmitterOk(Apply(s, Fetch(t)))
  {
    FetchGetsNext(s, t);
    SlotsFrame(s, Apply(s, Fetch(t)));
  }

  lemma FetchKeepsOwed(s: State, t: Tid)
    requires Inv(s) && Enabled(s, Fetch(t))
    ensures Disjoint(Apply(s, Fetch(t))) && SignalsOk(Apply(s, Fetch(t)))
  {
    FetchGetsNext(s, t);
    OwesFrame(s, Apply(s, Fetch(t)));
  }

  lemma FetchKeepsInv(s: State, t: Tid)
    requires Inv(s) && Enabled(s, Fetch(t))
    ensures Inv(Apply(s, Fetch(t)))
  {
    FramesFrame(s, Apply(s, Fetch(t)));
    FetchKeepsProcs(s, t);
    FetchKeepsSlots(s, t);
    FetchKeepsOwed(s, t);
  }

  /** Another thread never has the fence that `t` is handling in its own range. */
  lemma NotShared(s: State, t: Tid, u: Tid, q: Fence)
    requires Disjoint(s) && t in s.procs && u in s.procs && u != t
    requires Owes(s.procs[t], q)
    ensures !Owes(s.procs[u], q) && !InSlot(s.procs[u], q)
  {
  }

  /** Another fence of the same residue would need the same slot. */
  lemma ClearKeepsOthers(s: State, t: Tid)
    requires Inv(s) && Enabled(s, Clear(t))
    ensures Holds(s, s.procs[t].pos)
    ensures forall q: Fence :: Holds(s, q) && q != s.procs[t].pos ==> Holds(Apply(s, Clear(t)), q)
  {
    var p := s.procs[t];
    assert InSlot(p, p.pos) && Holds(s, p.pos);
  }

  lemma ClearKeepsSlots(s: State, t: Tid)
    requires Inv(s) && Enabled(s, Clear(t))
    ensures Present(Apply(s, Clear(t))) && SlotsOk(Apply(s, Clear(t))) && EmitterOk(Apply(s, Clear(t)))
  {
    var s', p := Apply(s, Clear(t)), s.procs[t];
    ClearKeepsOthers(s, t);
    forall u, q | u in s'.procs && InSlot(s'.procs[u], q)
      ensures Holds(s', q)
    {
      if u != t { NotShared(s, t, u, p.pos); }
      assert InSlot(s.procs[u], q) && q != p.pos;
    }
    forall u | u in s'.procs && s'.procs[u].Cleared?
      ensures !Holds(s', s'.procs[u].pos)
    {
      if u != t { assert !Holds(s, s.procs[u].pos); }
    }
  }

  lemma ClearKeepsProcs(s: State, t: Tid)
    requires Inv(s) && Enabled(s, Clear(t))
    ensures ProcsOk(Apply(s, Clear(t)))
  {
    var s' := Apply(s, Clear(t));
    forall u | u in s'.procs
      ensures ProcOk(s', s'.procs[u])
    {
      assert ProcOk(s, s.procs[u]);
    }
  }

  lemma ClearKeepsInv(s: State, t: Tid)
    requires Inv(s) && Enabled(s, Clear(t))
    ensures Inv(Apply(s, Clear(t)))
  {
    FramesFrame(s, Apply(s, Clear(t)));
    ClearKeepsSlots(s, t);
    ClearKeepsProcs(s, t);
    OwesFrame(s, Apply(s, Clear(t)));
  }

  /** What signalling does to the thread: one fence fewer owed, and it leaves after the last. */
  lemma SignalShrinks(s: State, t: Tid)
    requires Inv(s) && Enabled(s, Signal(t))
    ensures var s' := Apply(s, Signal(t)); var p := s.procs[t];
      && s'.signals == s.signals + [p.pos] && p.pos !in s.signals
      && s'.procs.Keys <= s.procs.Keys
      && (forall u :: u in s.procs && u != t ==> u in s'.procs && s'.procs[u] == s.procs[u])
      && (t in s'.procs <==> p.pos < p.hi)
      && (t in s'.procs ==> s'.procs[t] == Walking(p.cur, p.end, p.pos, p.hi))
  {
    var p := s.procs[t];
    assert Owes(p, p.pos);
    if p.cur == p.end { ModWindow(p.pos, p.hi, Pow2(s.k)); }
  }

  lemma SignalKeepsSignals(s: State, t: Tid)
    requires Inv(s) && Enabled(s, Signal(t))
    ensures Disjoint(Apply(s, Signal(t))) && SignalsOk(Apply(s, Signal(t)))
  {
    var s', p := Apply(s, Signal(t)), s.procs[t];
    SignalShrinks(s, t);
    assert Owes(p, p.pos);
    forall f, u | f in s'.signals && u in s'.procs
      ensures !Owes(s'.procs[u], f)
    {
      if f == p.pos {
        if u != t { NotShared(s, t, u, f); }
      } else {
        assert f in s.signals && !Owes(s.procs[u], f);
      }
    }
    forall f | 1 <= f <= s'.claimed && f !in s'.signals
      ensures SomeoneOwes(s', f)
    {
      var u :| u in s.procs && Owes(s.procs[u], f);
      assert f != p.pos;
      assert u in s'.procs && Owes(s'.procs[u], f);
    }
  }

  lemma SignalKeepsSlots(s: State, t: Tid)
    requires Inv(s) && Enabled(s, Signal(t))
    ensures Present(Apply(s, Signal(t))) && SlotsOk(Apply(s, Signal(t)))
  {
    var s', p := Apply(s, Signal(t)), s.procs[t];
    SignalShrinks(s, t);
    assert forall q :: Holds(s', q) == Holds(s, q);
    assert !Holds(s, p.pos);
  }

  lemma SignalKeepsProcs(s: State, t: Tid)
    requires Inv(s) && Enabled(s, Signal(t))
    ensures ProcsOk(Apply(s, Signal(t)))
  {
    var s' := Apply(s, Signal(t));
    SignalShrinks(s, t);
    forall u | u in s'.procs
      ensures ProcOk(s', s'.procs[u])
    {
      assert ProcOk(s, s.procs[u]);
    }
  }

  lemma SignalKeepsCounters(s: State, t: Tid)
    requires Inv(s) && Enabled(s, Signal(t))
    ensures CountersOk(Apply(s, Signal(t))) && FramesOk(Apply(s, Signal(t))) && ClaimsOk(Apply(s, Signal(t)))
  {
    FramesFrame(s, Apply(s, Signal(t)));
  }

  lemma SignalKeepsInv(s: State, t: Tid)
    requires Inv(s) && Enabled(s, Signal(t))
    ensures Inv(Apply(s, Signal(t)))
  {
    SignalKeepsCounters(s, t);
    SignalKeepsSignals(s, t);
    SignalKeepsSlots(s, t);
    SignalKeepsProcs(s, t);
  }

  lemma StepKeepsInv(s: State, step: Step)
    requires Inv(s) && Enabled(s, step) && Fresh(s, step) && Orderly(s, step)
    ensures Inv(Apply(s, step))
  {
    match step
    case EmitBump => EmitBumpKeepsInv(s);
    case EmitLook => EmitLookKeepsInv(s);
    case EmitWake => EmitWakeKeepsInv(s);
    case EmitStore => EmitStoreKeepsInv(s);
    case Commit => CommitKeepsInv(s);
    case Undo => UndoKeepsInv(s);
    case GpuWrite => WordKeepsInv(s, step);
    case ForceCompletion => WordKeepsInv(s, step);
    case ReadLast(_) => ReadsKeepInv(s, step);
    case ReadWord(_) => ReadsKeepInv(s, step);
    case CasFail(_) => ReadsKeepInv(s, step);
    case CasOk(t) => CasKeepsInv(s, t);
    case Fetch(t) => FetchKeepsInv(s, t);
    case Clear(t) => ClearKeepsInv(s, t);
    case Signal(t) => SignalKeepsInv(s, t);
  }

  // ---------------------------------------------------------------------------------------------
  // Whole runs

  /** States `run[0], run[1], ...` visited by `steps`, from a freshly initialised ring of 2^k slots. */
  ghost predicate Run(k: nat, run: seq<State>, steps: seq<Step>) {
    && 1 <= k <= 31
    && |run| == |steps| + 1
    && run[0] == Init(k)
    && forall i :: 0 <= i < |steps| ==>
         && Enabled(run[i], steps[i]) && Timely(run[i], steps[i]) && Orderly(run[i], steps[i])
         && run[i + 1] == Apply(run[i], steps[i])
  }

  lemma TimelyStepKeepsInv(s: State, step: Step)
    requires Inv(s) && Enabled(s, step) && Timely(s, step) && Orderly(s, step)
    ensures Fresh(s, step) && Inv(Apply(s, step))
  {
    if step.CasOk? { FreshUnlessFullWrap(s, step.t); }
    StepKeepsInv(s, step);
  }

  lemma {:induction false} RunKeepsInv(k: nat, run: seq<State>, steps: seq<Step>, n: nat)
    requires Run(k, run, steps) && n < |run|
    ensures Inv(run[n]) && run[n].k == k
  {
    if n == 0 {
      InitInv(k);
    } else {
      RunKeepsInv(k, run, steps, n - 1);
      TimelyStepKeepsInv(run[n - 1], steps[n - 1]);
    }
  }

  /** `fence_signal` is never called on a signalled fence, so `BUG()` is unreachable; the fence is the
      one of the slot, and the GPU has written its number. */
  lemma SignalledOnceAndNotEarly(k: nat, run: seq<State>, steps: seq<Step>, i: nat)
    requires Run(k, run, steps) && i < |steps| && steps[i].Signal?
    ensures var p := run[i].procs[steps[i].t];
      && p.fence == Some(p.pos)
      && p.pos !in run[i].signals
      && p.pos <= run[i].written
      && run[i + 1].signals == run[i].signals + [p.pos]
  {
    RunKeepsInv(k, run, steps, i);
    SignalShrinks(run[i], steps[i].t);
  }

  /** A slot is only ever overwritten when it is empty: no fence is lost, across any number of wraps. */
  lemma NoFenceOverwritten(k: nat, run: seq<State>, steps: seq<Step>, i: nat)
    requires Run(k, run, steps) && i < |steps| && steps[i].EmitStore?
    ensures run[i].slots[And(run[i].emitter.num, Mask(run[i]))] == None
  {
    RunKeepsInv(k, run, steps, i);
    EmitStoreFillsEmptySlot(run[i]);
    SlotIndex(run[i], run[i].bumped);
    SlotIndex(run[i], run[i].emitter.num);
  }

  /** Every slot index used is inside the array: where a phase is reached, its access is possible. */
  lemma SlotAccessInRange(k: nat, run: seq<State>, steps: seq<Step>, n: nat, t: Tid)
    requires Run(k, run, steps) && n < |run|
    ensures var s := run[n];
      && (s.emitter.Bumped? ==> Enabled(s, EmitLook)) && (s.emitter.Ready? ==> Enabled(s, EmitStore))
      && (t in s.procs && s.procs[t].Walking? ==> Enabled(s, Fetch(t)))
      && (t in s.procs && s.procs[t].Fetched? ==> Enabled(s, Clear(t)))
  {
    var s := run[n];
    RunKeepsInv(k, run, steps, n);
    if !s.emitter.Idle? { SlotIndex(s, s.emitter.num); }
    if t in s.procs {
      assert ProcOk(s, s.procs[t]);
      if s.procs[t].Walking? { SlotIndex(s, s.procs[t].cur + 1); }
      if s.procs[t].Fetched? { SlotIndex(s, s.procs[t].pos); }
    }
  }

  /** Only claimed fences are signalled, only written ones are claimed, and every claimed fence is
      signalled or is on the list of exactly one processor. */
  lemma EveryFenceAccountedFor(k: nat, run: seq<State>, steps: seq<Step>, n: nat, f: Fence)
    requires Run(k, run, steps) && n < |run| && 1 <= f <= run[n].claimed
    ensures f <= run[n].written
    ensures f in run[n].signals <==> !SomeoneOwes(run[n], f)
    ensures forall t, u | t in run[n].procs && u in run[n].procs ::
              Owes(run[n].procs[t], f) && Owes(run[n].procs[u], f) ==> t == u
  {
    RunKeepsInv(k, run, steps, n);
  }

  /** Once no processor is active, exactly the claimed fences have been signalled, each once. */
  lemma QuiescentMeansSignalled(k: nat, run: seq<State>, steps: seq<Step>, n: nat)
    requires Run(k, run, steps) && n < |run| && run[n].procs == map[]
    ensures forall f: Fence :: f in run[n].signals <==> 1 <= f <= run[n].claimed
    ensures NoDuplicates(run[n].signals)
  {
    RunKeepsInv(k, run, steps, n);
    forall f: Fence
      ensures f in run[n].signals <==> 1 <= f <= run[n].claimed
    {
      assert !SomeoneOwes(run[n], f);
    }
  }

  lemma StepMonotone(k: nat, run: seq<State>, steps: seq<Step>, i: nat)
    requires Run(k, run, steps) && i < |steps|
    ensures run[i].claimed <= run[i + 1].claimed && run[i].claims <= run[i + 1].claims
  {
    RunKeepsInv(k, run, steps, i);
    TimelyStepKeepsInv(run[i], steps[i]);
    if steps[i].CasOk? { CasTakesRange(run[i], steps[i].t); }
  }

  /** `last_seq` never moves backwards and never passes the word; claims only accumulate. */
  lemma {:induction false} LastSeqMonotone(k: nat, run: seq<State>, steps: seq<Step>, m: nat, n: nat)
    requires Run(k, run, steps) && m <= n < |run|
    ensures run[m].claimed <= run[n].claimed <= run[n].written
    ensures run[n].lastSeq == run[n].claimed % WORD && run[n].word == run[n].written % WORD
    ensures run[m].claims <= run[n].claims
  {
    if m < n {
      LastSeqMonotone(k, run, steps, m, n - 1);
      StepMonotone(k, run, steps, n - 1);
    }
    RunKeepsInv(k, run, steps, n);
  }

  /** The claimed ranges are contiguous, disjoint and at most one ring long. */
  lemma {:induction false} ClaimsTile(s: State, i: nat, j: nat)
    requires Inv(s) && i < j < |s.claims|
    ensures s.claims[i].1 <= s.claims[j].0
    ensures s.claims[i].1 - s.claims[i].0 <= Pow2(s.k)
  {
    if i + 1 < j { ClaimsTile(s, i, j - 1); }
  }

  /** The do-while visits each slot of its own range, and stops exactly at its end, even when the
      range is the whole ring: the test on masked numbers is the test on the counters. */
  lemma WalkStopsAtEnd(k: nat, run: seq<State>, steps: seq<Step>, i: nat)
    requires Run(k, run, steps) && i < |steps| && steps[i].Signal?
    ensures var t := steps[i].t; var p := run[i].procs[t];
      && p.cur == p.pos % Pow2(k)
      && (t !in run[i + 1].procs <==> p.pos == p.hi)
      && (t in run[i + 1].procs ==> run[i + 1].procs[t] == Walking(p.cur, p.end, p.pos, p.hi))
  {
    RunKeepsInv(k, run, steps, i);
    SignalShrinks(run[i], steps[i].t);
  }

  // ---------------------------------------------------------------------------------------------
  // A waiting emitter can always be woken

  /** A step of the GPU or of a processor. */
  predicate IsService(step: Step) {
    step.GpuWrite? || step.ReadLast? || step.ReadWord? || step.CasOk? || step.Fetch? || step.Clear? || step.Signal?
  }

  /** Steps of the GPU and of processors lead from `s` to `s'`. */
  ghost predicate Served(s: State, steps: seq<Step>, s': State)
    decreases |steps|
  {
    if steps == [] then s' == s
    else
      && IsService(steps[0]) && Enabled(s, steps[0]) && Timely(s, steps[0])
      && Served(Apply(s, steps[0]), steps[1..], s')
  }

  lemma {:induction false} ServedThen(s: State, a: seq<Step>, t: State, b: seq<Step>, u: State)
    requires Served(s, a, t) && Served(t, b, u)
    ensures Served(s, a + b, u)
    decreases |a|
  {
    if a == [] {
      assert a + b == b;
    } else {
      ServedThen(Apply(s, a[0]), a[1..], t, b, u);
      assert (a + b)[1..] == a[1..] + b;
    }
  }

  lemma ServedFirst(s: State, step: Step, rest: seq<Step>, s': State)
    requires IsService(step) && Enabled(s, step) && Timely(s, step) && Served(Apply(s, step), rest, s')
    ensures Served(s, [step] + rest, s')
  {
    assert ([step] + rest)[1..] == rest;
  }

  /** What no step of the GPU or of a processor changes. */
  predicate SameEmission(s: State, s': State)
    requires s.committed <= |s.frames|
  {
    s'.emitter == s.emitter && s'.frames == s.frames && s'.committed == s.committed && Horizon(s') == Horizon(s)
  }

  lemma ServiceKeeps(s: State, step: Step)
    requires Inv(s) && IsService(step) && Enabled(s, step) && Timely(s, step)
    ensures Inv(Apply(s, step)) && SameEmission(s, Apply(s, step))
  {
    TimelyStepKeepsInv(s, step);
    ServiceKeepsEmission(s, step);
  }

  lemma ServiceKeepsEmission(s: State, step: Step)
    requires FramesOk(s) && IsService(step) && Enabled(s, step)
    ensures SameEmission(s, Apply(s, step))
  {
  }

  /** The GPU executes committed frames up to `f`. */
  lemma {:induction false} GpuCatchesUp(s: State, f: Fence) returns (steps: seq<Step>, s': State)
    requires Inv(s) && f <= Horizon(s)
    ensures Served(s, steps, s') && Inv(s') && f <= s'.written
    decreases s.committed - s.executed
  {
    if s.written >= f {
      steps, s' := [], s;
    } else {
      ServiceKeeps(s, GpuWrite);
      steps, s' := GpuCatchesUp(Apply(s, GpuWrite), f);
      ServedFirst(s, GpuWrite, steps, s');
      steps := [GpuWrite] + steps;
    }
  }

  lemma {:induction false} Above(keys: set<Tid>) returns (t: Tid)
    ensures forall u :: u in keys ==> u < t
    decreases |keys|
  {
    if keys == {} {
      t := 0;
    } else {
      var u :| u in keys;
      var rest := keys - {u};
      var v := Above(rest);
      t := if v <= u then u + 1 else v;
      assert forall x :: x in keys ==> x == u || x in rest;
    }
  }

  /** A processor that is not disturbed claims everything the GPU has written. */
  lemma ClaimWritten(s: State, t: Tid) returns (s': State)
    requires Inv(s) && t !in s.procs && s.claimed < s.written
    ensures Served(s, [ReadLast(t), ReadWord(t), CasOk(t)], s') && s'.claimed == s.written
  {
    WindowBound(s);
    SlotCount(s);
    if s.word == s.lastSeq { ModWindow(s.claimed, s.written, WORD); }
    var s1 := Apply(s, ReadLast(t));
    var s2 := Apply(s1, ReadWord(t));
    s' := Apply(s2, CasOk(t));
    assert Served(s', [], s');
    ServedFirst(s2, CasOk(t), [], s');
    ServedFirst(s1, ReadWord(t), [CasOk(t)], s');
    ServedFirst(s, ReadLast(t), [ReadWord(t), CasOk(t)], s');
  }

  lemma {:induction false} ServedKeeps(s: State, steps: seq<Step>, s': State)
    requires Inv(s) && Served(s, steps, s')
    ensures Inv(s') && SameEmission(s, s')
    decreases |steps|
  {
    if steps != [] {
      ServiceKeeps(s, steps[0]);
      ServedKeeps(Apply(s, steps[0]), steps[1..], s');
    }
  }

  /** How many steps a thread is from signalling `f`. */
  function Distance(p: Processor, f: Fence): nat
    requires Owes(p, f)
  {
    match p
    case Walking(_, _, pos, _) => 3 * (f - pos)
    case Fetched(_, _, _, pos, _) => 3 * (f - pos) + 2
    case Cleared(_, _, _, pos, _) => 3 * (f - pos) + 1
  }

  /** The next step of a thread that owes `f`. */
  lemma NextOwed(s: State, u: Tid, f: Fence) returns (step: Step)
    requires Inv(s) && u in s.procs && Owes(s.procs[u], f)
    ensures IsService(step) && !step.CasOk? && Enabled(s, step)
    ensures var s' := Apply(s, step);
      f in s'.signals || (u in s'.procs && Owes(s'.procs[u], f) && Distance(s'.procs[u], f) < Distance(s.procs[u], f))
  {
    var p := s.procs[u];
    assert ProcOk(s, p);
    match p
    case Walking(_, _, _, _) =>
      SlotIndex(s, p.cur + 1);
      step := Fetch(u);
    case Fetched(_, _, _, _, _) =>
      SlotIndex(s, p.pos);
      step := Clear(u);
    case Cleared(_, _, _, _, _) =>
      step := Signal(u);
      SignalShrinks(s, u);
  }

  lemma {:induction false} OwedGetsSignalled(s: State, u: Tid, f: Fence) returns (steps: seq<Step>, s': State)
    requires Inv(s) && u in s.procs && Owes(s.procs[u], f)
    ensures Served(s, steps, s') && f in s'.signals
    decreases Distance(s.procs[u], f)
  {
    var step := NextOwed(s, u, f);
    var s1 := Apply(s, step);
    StepKeepsInv(s, step);
    if f in s1.signals {
      steps, s' := [], s1;
    } else {
      steps, s' := OwedGetsSignalled(s1, u, f);
    }
    ServedFirst(s, step, steps, s');
    steps := [step] + steps;
  }

  /** Every fence up to the last committed number can be signalled by the GPU and processors alone. */
  lemma CommittedGetsSignalled(s: State, f: Fence) returns (steps: seq<Step>, s': State)
    requires Inv(s) && 1 <= f <= Horizon(s)
    ensures Served(s, steps, s') && f in s'.signals
  {
    var a, s1 := GpuCatchesUp(s, f);
    var s2, b := s1, [];
    if s1.claimed < f {
      var t := Above(s1.procs.Keys);
      s2 := ClaimWritten(s1, t);
      b := [ReadLast(t), ReadWord(t), CasOk(t)];
    }
    ServedThen(s, a, s1, b, s2);
    ServedKeeps(s, a + b, s2);
    steps, s' := a + b, s2;
    if f !in s2.signals {
      var u :| u in s2.procs && Owes(s2.procs[u], f);
      var c;
      c, s' := OwedGetsSignalled(s2, u, f);
      ServedThen(s, a + b, s2, c, s');
      steps := a + b + c;
    }
  }

  lemma SignalledBelowHorizon(s: State, f: Fence)
    requires CountersOk(s) && FramesOk(s) && SignalsOk(s) && f in s.signals
    ensures f <= Horizon(s)
  {
    if s.executed < s.committed { assert s.written <= s.frames[s.committed - 1].fence; }
  }

  /** Without a further commit, `f` can be signalled. */
  ghost predicate CanBeSignalled(s: State, f: Fence) {
    exists steps, s' :: Served(s, steps, s') && f in s'.signals
  }

  /** A fence can be signalled without a further commit exactly if the last committed number has reached it. */
  lemma SignalReachableIff(s: State, f: Fence)
    requires Inv(s) && f >= 1
    ensures CanBeSignalled(s, f) <==> f <= Horizon(s)
  {
    if f <= Horizon(s) {
      var steps, s' := CommittedGetsSignalled(s, f);
      assert Served(s, steps, s') && f in s'.signals;
    }
    if CanBeSignalled(s, f) {
      var steps, s' :| Served(s, steps, s') && f in s'.signals;
      ServedKeeps(s, steps, s');
      SignalledBelowHorizon(s', f);
    }
  }

  /** Without a further commit, the waiting emitter can go on. */
  ghost predicate CanWake(s: State) {
    exists steps, s' :: Served(s, steps, s') && Enabled(s', EmitWake)
  }

  lemma WakesWithSignal(s: State)
    requires Inv(s) && s.emitter.Waiting?
    ensures CanWake(s) <==> CanBeSignalled(s, s.emitter.prev)
  {
    if CanWake(s) {
      var steps, s' :| Served(s, steps, s') && Enabled(s', EmitWake);
      ServedKeeps(s, steps, s');
    }
    if CanBeSignalled(s, s.emitter.prev) {
      var steps, s' :| Served(s, steps, s') && s.emitter.prev in s'.signals;
      ServedKeeps(s, steps, s');
      assert Enabled(s', EmitWake);
    }
  }

  /** A waiting emitter can go on, by steps of the GPU and of processors, exactly if the fence it waits for is not
      above the last committed number. */
  lemma WaitingEmitterWakesIff(k: nat, run: seq<State>, steps: seq<Step>, n: nat)
    requires Run(k, run, steps) && n < |run| && run[n].emitter.Waiting?
    ensures run[n].committed <= |run[n].frames| && (CanWake(run[n]) <==> run[n].emitter.prev <= Horizon(run[n]))
  {
    RunKeepsInv(k, run, steps, n);
    WakesWithSignal(run[n]);
    SignalReachableIff(run[n], run[n].emitter.prev);
  }

  /** The emitter waits for a fence above the last committed number. */
  ghost predicate Stuck(s: State, emitter: Emitter) {
    && s.emitter == emitter && emitter.Waiting?
    && s.committed <= |s.frames| && emitter.prev > Horizon(s)
  }

  lemma StuckNow(s: State, emitter: Emitter)
    requires Inv(s) && Stuck(s, emitter)
    ensures !Enabled(s, EmitWake)
  {
    if s.emitter.prev in s.signals { SignalledBelowHorizon(s, s.emitter.prev); }
  }

  lemma StuckStep(s: State, step: Step, emitter: Emitter)
    requires FramesOk(s) && Stuck(s, emitter) && step != EmitWake && Enabled(s, step) && Orderly(s, step)
    ensures Stuck(Apply(s, step), emitter)
  {
    assert !step.ForceCompletion?;
    assert IsService(step) || step.CasFail?;
  }

  lemma StuckInRun(k: nat, run: seq<State>, steps: seq<Step>, n: nat, emitter: Emitter)
    requires Run(k, run, steps) && n < |run| && Stuck(run[n], emitter)
    ensures FramesOk(run[n]) && !Enabled(run[n], EmitWake)
  {
    RunKeepsInv(k, run, steps, n);
    StuckNow(run[n], emitter);
  }

  /** Then it waits for ever, unless completion is forced: whatever else may still happen changes nothing. */
  lemma {:induction false} StuckForEver(k: nat, run: seq<State>, steps: seq<Step>, m: nat, n: nat)
    requires Run(k, run, steps) && m <= n < |run| && Stuck(run[m], run[m].emitter)
    ensures Stuck(run[n], run[m].emitter) && !Enabled(run[n], EmitWake)
  {
    if m < n {
      StuckForEver(k, run, steps, m, n - 1);
      StuckInRun(k, run, steps, n - 1, run[m].emitter);
      StuckStep(run[n - 1], steps[n - 1], run[m].emitter);
    }
    StuckInRun(k, run, steps, n, run[m].emitter);
  }

  // ---------------------------------------------------------------------------------------------
  // Forced completion

  /** A forced completion keeps the invariant exactly if no fence of an unfinished frame is behind the number it
      writes and missing from its slot or from the word. */
  lemma ForceSafeIff(s: State)
    requires Inv(s)
    ensures Inv(Apply(s, ForceCompletion)) <==> Orderly(s, ForceCompletion)
  {
    if Orderly(s, ForceCompletion) {
      WordKeepsInv(s, ForceCompletion);
    } else if s.emitter.Stored? {
      var s' := Apply(s, ForceCompletion);
      assert s.frames[s.committed].fence < s.frames[|s.frames| - 1].fence;
      assert !FramesOk(s');
    }
  }
}
