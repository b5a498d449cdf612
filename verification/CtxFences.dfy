/** The fence window of a context ring (amdgpu_ctx.c), and the size it relies on (amdgpu_device.c).

A context hands out 64-bit handles 1, 2, ... but remembers only the last 2^k fences, in slots picked by the
low bits of the handle. `Get` is shown to agree with the full history of issued fences.
 */
module CtxFences {
  import opened Bits
  import opened Wrappers

  type Fence = nat

  datatype Answer = Einval | Null | Got(fence: Fence)

  // ---------------------------------------------------------------------------------------------
  // The window as a value

  datatype Window = Window(k: nat, sequence: nat, slots: seq<Option<Fence>>)

  function Init(k: nat): Window {
    Window(k, 1, seq(Pow2(k), _ => None))
  }

  /** The slot of a handle: its low bits, which is its residue. */
  function Slot(k: nat, handle: nat): (i: nat)
    ensures i == handle % Pow2(k) < Pow2(k)
  {
    AndMask(handle, k);
    And(handle, Pow2(k) - 1)
  }

  ghost predicate Sized(w: Window) {
    |w.slots| == Pow2(w.k)
  }

  function Add(w: Window, fence: Fence): Window
    requires Sized(w)
  {
    w.(slots := w.slots[Slot(w.k, w.sequence) := Some(fence)], sequence := w.sequence + 1)
  }

  function Get(w: Window, handle: nat): Answer
    requires Sized(w)
  {
    if handle >= w.sequence then Einval
    else if handle + Pow2(w.k) < w.sequence then Null
    else match w.slots[Slot(w.k, handle)]
      case None => Null
      case Some(f) => Got(f)
  }

  /** The window after the fences of `history` have been added in order. */
  function Adds(k: nat, history: seq<Fence>): (w: Window)
    ensures Sized(w) && w.k == k && w.sequence == |history| + 1
  {
    if history == [] then Init(k) else Add(Adds(k, history[..|history| - 1]), history[|history| - 1])
  }

  /** Each slot holds the newest fence of its residue, or nothing if there was none. */
  ghost predicate Newest(slots: seq<Option<Fence>>, m: nat, history: seq<Fence>) {
    && |slots| == m >= 1
    && (forall h :: 1 <= h <= |history| < h + m ==> slots[h % m] == Some(history[h - 1]))
    && (forall i :: 0 <= i < m && (i == 0 || i > |history|) && |history| < m ==> slots[i] == None)
  }

  lemma NewestNext(slots: seq<Option<Fence>>, m: nat, history: seq<Fence>, fence: Fence)
    requires Newest(slots, m, history)
    ensures Newest(slots[(|history| + 1) % m := Some(fence)], m, history + [fence])
  {
    var n := |history| + 1;
    forall h | 1 <= h < n < h + m
      ensures h % m != n % m
    {
      if h % m == n % m { ModWindow(h, n, m); }
    }
    if n < m { ModUnique(n, m, 0, n); }
  }

  lemma {:induction false} AddsNewest(k: nat, history: seq<Fence>)
    ensures Newest(Adds(k, history).slots, Pow2(k), history)
  {
    if history != [] {
      var rest := history[..|history| - 1];
      AddsNewest(k, rest);
      NewestNext(Adds(k, rest).slots, Pow2(k), rest, history[|rest|]);
      assert rest + [history[|rest|]] == history;
    }
  }

  lemma ZeroSlot(slots: seq<Option<Fence>>, m: nat, history: seq<Fence>)
    requires Newest(slots, m, history) && |history| < m
    ensures slots[0 % m] == None
  {
    ModUnique(0, m, 0, 0);
  }

  lemma NextSlot(slots: seq<Option<Fence>>, m: nat, history: seq<Fence>)
    requires Newest(slots, m, history)
    ensures slots[(|history| + 1) % m] == if |history| < m then None else Some(history[|history| - m])
  {
    var n := |history| + 1;
    if n < m {
      ModUnique(n, m, 0, n);
    } else if n == m {
      ModUnique(n, m, 1, 0);
    } else {
      ModShift(n - m, m, 1);
    }
  }

  /** The lookup agrees with the whole history: an error exactly for handles not yet issued, nothing for handle 0
      and for handles more than a window old, and otherwise exactly the fence issued under the handle. */
  lemma GetAgreesWithHistory(k: nat, history: seq<Fence>, handle: nat)
    ensures Get(Adds(k, history), handle) ==
      if handle > |history| then Einval
      else if handle == 0 || handle + Pow2(k) <= |history| then Null
      else Got(history[handle - 1])
  {
    AddsNewest(k, history);
    if handle == 0 && |history| < Pow2(k) { ZeroSlot(Adds(k, history).slots, Pow2(k), history); }
  }

  /** The fence that the next add finds in its slot, and waits for, is exactly the one issued 2^k handles before;
      the first 2^k adds find none. */
  lemma AddWaitsForOldest(k: nat, history: seq<Fence>)
    ensures Adds(k, history).slots[Slot(k, |history| + 1)] ==
      if |history| < Pow2(k) then None else Some(history[|history| - Pow2(k)])
  {
    AddsNewest(k, history);
    NextSlot(Adds(k, history).slots, Pow2(k), history);
  }

  lemma AddsNext(k: nat, history: seq<Fence>, fence: Fence)
    ensures Adds(k, history + [fence]) == Add(Adds(k, history), fence)
  {
    assert (history + [fence])[..|history|] == history;
  }

  /** Every fence that has left the window has signalled, except those of the handles in `lost`. */
  ghost predicate Covered(k: nat, history: seq<Fence>, lost: set<int>, signalled: set<Fence>) {
    forall h :: 1 <= h && h + Pow2(k) <= |history| && h !in lost ==> history[h - 1] in signalled
  }

  lemma CoveredNext(k: nat, history: seq<Fence>, fence: Fence, lost: set<int>, signalled: set<Fence>)
    requires Covered(k, history, lost, signalled)
    requires |history| >= Pow2(k) ==>
      history[|history| - Pow2(k)] in signalled || |history| + 1 - Pow2(k) in lost
    ensures Covered(k, history + [fence], lost, signalled)
  {
  }

  // ---------------------------------------------------------------------------------------------
  // The window as code

  class CtxRing {
    const k: nat
    var sequence: nat
    const fences: array<Option<Fence>>
    var signalled: set<Fence>          // fences signalled so far, by anyone
    ghost var history: seq<Fence>
    ghost var lost: set<int>           // handles whose fence was dropped although the wait for it failed

    ghost function View(): Window
      reads this, fences
    {
      Window(k, sequence, fences[..])
    }

    ghost predicate Valid()
      reads this, fences
    {
      && fences.Length == Pow2(k)
      && View() == Adds(k, history)
      && Covered(k, history, lost, signalled)
    }

    constructor (k: nat)
      ensures Valid() && fresh(fences) && this.k == k && history == [] && lost == {}
    {
      this.k := k;
      sequence, signalled := 1, {};
      fences := new Option<Fence>[Pow2(k)](_ => None);
      history, lost := [], {};
      new;
      assert fences[..] == Init(k).slots;
    }

    /** A fence signals. */
    method Signal(f: Fence)
      requires Valid()
      modifies this`signalled
      ensures Valid() && signalled == old(signalled) + {f}
    {
      signalled := signalled + {f};
    }

    /** `amdgpu_ctx_add_fence`; `waitOk` says whether the wait for the fence being replaced succeeds. */
    method AddFence(fence: Fence, waitOk: bool) returns (handle: nat)
      requires Valid()
      modifies this, fences
      ensures Valid() && history == old(history) + [fence] && handle == |history|
      ensures old(signalled) <= signalled
      ensures lost == if waitOk || |old(history)| < Pow2(k) then old(lost)
        else old(lost) + {|old(history)| + 1 - Pow2(k)}
    {
      handle := sequence;
      var idx := Slot(k, handle);
      AddWaitsForOldest(k, history);
      WaitFor(fences[idx], waitOk);
      CoveredNext(k, history, fence, lost, signalled);
      AddsNext(k, history, fence);
      ghost var before := fences[..];
      fences[idx] := Some(fence);
      assert fences[..] == before[idx := Some(fence)];
      sequence := sequence + 1;
      history := history + [fence];
    }

    /** The wait in `amdgpu_ctx_add_fence`. */
    method WaitFor(other: Option<Fence>, waitOk: bool)
      requires Covered(k, history, lost, signalled)
      requires other == if |history| < Pow2(k) then None else Some(history[|history| - Pow2(k)])
      modifies this`signalled, this`lost
      ensures Covered(k, history, lost, signalled) && old(signalled) <= signalled
      ensures lost == if waitOk || other == None then old(lost) else old(lost) + {|history| + 1 - Pow2(k)}
      ensures waitOk && other.Some? ==> other.value in signalled
    {
      if other.Some? {
        if waitOk {
          signalled := signalled + {other.value};
        } else {
          lost := lost + {|history| + 1 - Pow2(k)};
        }
      }
    }

    /** `amdgpu_ctx_get_fence`: nothing is answered only for handle 0, or for a fence that has signalled unless
        the wait for it failed. */
    method GetFence(handle: nat) returns (r: Answer)
      requires Valid()
      ensures r == Einval <==> handle > |history|
      ensures r.Got? ==> 1 <= handle <= |history| && r.fence == history[handle - 1]
      ensures r == Null ==> handle == 0 || handle in lost || (handle <= |history| && history[handle - 1] in signalled)
      ensures r == Null <==> handle <= |history| && (handle == 0 || handle + Pow2(k) <= |history|)
    {
      GetAgreesWithHistory(k, history, handle);
      if handle >= sequence {
        return Einval;
      }
      if handle + Pow2(k) < sequence {
        return Null;
      }
      var f := fences[Slot(k, handle)];
      return if f.Some? then Got(f.value) else Null;
    }
  }

  // ---------------------------------------------------------------------------------------------
  // The module parameter

  const INT_MAX: int := 0x7fff_ffff

  /** The value of a 32-bit signed int after assigning `x`. */
  function ToInt(x: int): int {
    if x > INT_MAX then x - WORD else x
  }

  /** The least power of two not below `n`. */
  function RoundUpPow2(n: nat): (r: nat)
    requires n >= 1
    ensures IsPow2(r) && n <= r < 2 * n
  {
    RoundUpFrom(n, 0)
  }

  function RoundUpFrom(n: nat, j: nat): (r: nat)
    requires n >= 1 && (j == 0 || Pow2(j - 1) < n)
    ensures IsPow2(r) && n <= r < 2 * n
    decreases if Pow2(j) < n then n - Pow2(j) else 0
  {
    if Pow2(j) < n then RoundUpFrom(n, j + 1) else Pow2(j)
  }

  /** The treatment of `amdgpu_sched_jobs` in `amdgpu_check_arguments`. */
  function NormaliseJobs(jobs: int): int
    requires -INT_MAX - 1 <= jobs <= INT_MAX
  {
    if jobs < 4 then 4
    else if And(jobs, jobs - 1) != 0 then ToInt(RoundUpPow2(jobs))
    else jobs
  }

  lemma NoPowerBetween(r: nat)
    requires IsPow2(r)
    ensures r <= 0x4000_0000 || r >= 0x8000_0000
  {
    Pow2Of32();
    assert Pow2(32) == 4 * Pow2(30);
    var j: nat :| r == Pow2(j);
    if j <= 30 { Pow2Monotone(j, 30); } else { Pow2Monotone(31, j); }
  }

  /** The result is a power of two, at least 4 and at least the request, exactly for requests up to 2^30; it is then the
      least one. */
  lemma NormaliseJobsIff(jobs: int)
    requires -INT_MAX - 1 <= jobs <= INT_MAX
    ensures var r := NormaliseJobs(jobs); (r >= 4 && IsPow2(r) && r >= jobs) <==> jobs <= 0x4000_0000
    ensures jobs <= 0x4000_0000 ==> NormaliseJobs(jobs) == 4 || NormaliseJobs(jobs) < 2 * jobs
  {
    if jobs < 4 {
      assert 4 == Pow2(2);
    } else {
      PowerOfTwoTest(jobs);
      NoPowerBetween(if IsPow2(jobs) then jobs else RoundUpPow2(jobs));
    }
  }

  /** One more than that, and the setting turns negative. */
  lemma LargeRequestTurnsNegative()
    ensures NormaliseJobs(0x4000_0001) < 0
  {
    PowerOfTwoTest(0x4000_0001);
    if IsPow2(0x4000_0001) { NoPowerBetween(0x4000_0001); }
    NoPowerBetween(RoundUpPow2(0x4000_0001));
  }

  const MAX_RINGS: int := 16

  /** 32-bit signed multiplication. */
  function WrapInt(x: int): int {
    (x + INT_MAX + 1) % WORD - INT_MAX - 1
  }

  /** The slots `amdgpu_ctx_init` asks for: the windows of all rings, multiplied in an `int`. */
  function SlotsAsked(jobs: int): int
    requires -INT_MAX - 1 <= jobs <= INT_MAX
  {
    WrapInt(NormaliseJobs(jobs) * MAX_RINGS)
  }

  lemma PowersNear2To26(r: nat)
    requires IsPow2(r)
    ensures r <= 0x400_0000 || r >= 0x800_0000
  {
    Pow2Of32();
    Pow2Plus(5, 27);
    assert Pow2(5) == 32 && Pow2(27) == 2 * Pow2(26);
    var j: nat :| r == Pow2(j);
    if j <= 26 { Pow2Monotone(j, 26); } else { Pow2Monotone(27, j); }
  }

  /** The windows of all rings are asked for, each a power of two of at least the requested size, exactly for requests
      up to 2^26. */
  lemma WindowsAskedIff(jobs: int)
    requires -INT_MAX - 1 <= jobs <= INT_MAX
    ensures var r := NormaliseJobs(jobs);
      r >= 4 && r >= jobs && IsPow2(r) && SlotsAsked(jobs) == r * MAX_RINGS <==> jobs <= 0x400_0000
  {
    var r := NormaliseJobs(jobs);
    NormaliseJobsIff(jobs);
    if jobs < 4 {
      assert 4 == Pow2(2);
    } else if r > 0 && IsPow2(r) {
      PowersNear2To26(r);
      NormaliseJobsSmall(jobs);
    }
  }

  /** The result is less than twice the request. */
  lemma NormaliseJobsSmall(jobs: int)
    requires 4 <= jobs <= INT_MAX && NormaliseJobs(jobs) > 0
    ensures NormaliseJobs(jobs) < 2 * jobs
  {
  }
}
