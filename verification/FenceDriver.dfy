/** The fence driver's emit and process routines (amdgpu_fence.c) as code over the slot array.

This is the loop-level counterpart of module FenceRing for calls that do not overlap: the masked
do-while of `amdgpu_fence_process` is shown to signal exactly the fences the GPU has passed, in order.
 */
module FenceDriver {
  import opened Bits
  import opened Wrappers

  /** A fence object, named by its place in emission order, counting from 1. */
  type Fence = nat

  /** The numbers `lo + 1, ..., hi`. */
  function Numbers(lo: nat, hi: nat): (r: seq<Fence>)
    requires lo <= hi
    ensures |r| == hi - lo && forall i :: 0 <= i < |r| ==> r[i] == lo + 1 + i
  {
    seq(hi - lo, i => lo + 1 + i)
  }

  /** The masked 32-bit number is the slot of the unbounded counter. */
  lemma MaskedIndex(x: nat, k: nat)
    requires k <= 32
    ensures And(x % WORD, Pow2(k) - 1) == x % Pow2(k)
  {
    AndMask(x % WORD, k);
    ModOfWord(x, k);
  }

  lemma AddMod(x: nat, n: nat)
    ensures (x % WORD + n) % WORD == (x + n) % WORD
  {
    ModShift(x % WORD + n, WORD, x / WORD);
  }

  /** The masked increment moves to the slot of the next counter. */
  lemma MaskedNext(pos: nat, k: nat)
    ensures And(pos % Pow2(k) + 1, Pow2(k) - 1) == (pos + 1) % Pow2(k)
  {
    AndMask(pos % Pow2(k) + 1, k);
    ModSucc(pos, Pow2(k));
  }

  /** The `m` slots hold the fences `lo + 1 .. hi`, each in the slot of its residue, and nothing else. */
  ghost predicate Holds(v: seq<Option<Fence>>, m: nat, lo: nat, hi: nat) {
    && |v| == m >= 1
    && (forall q :: lo < q <= hi ==> v[q % m] == Some(q))
    && (forall i :: 0 <= i < m && v[i].Some? ==> lo < v[i].value <= hi && v[i].value % m == i)
  }

  lemma TakeOldest(v: seq<Option<Fence>>, m: nat, lo: nat, hi: nat)
    requires Holds(v, m, lo, hi) && lo < hi
    ensures v[(lo + 1) % m] == Some(lo + 1) && Holds(v[(lo + 1) % m := None], m, lo + 1, hi)
  {
  }

  lemma StoreNext(v: seq<Option<Fence>>, m: nat, lo: nat, hi: nat)
    requires Holds(v, m, lo, hi) && lo <= hi < lo + m
    ensures v[(hi + 1) % m] == None && Holds(v[(hi + 1) % m := Some(hi + 1)], m, lo, hi + 1)
  {
    var was := v[(hi + 1) % m];
    if was.Some? { ModWindow(was.value, hi + 1, m); }
  }

  lemma FullRing(v: seq<Option<Fence>>, m: nat, lo: nat, hi: nat)
    requires Holds(v, m, lo, hi) && hi == lo + m
    ensures v[(hi + 1) % m] == Some(lo + 1)
  {
    ModShift(lo + 1, m, 1);
  }

  class Ring {
    const k: nat                       // the ring has 2^k slots
    var syncSeq: nat                   // 32-bit words
    var lastSeq: nat
    var word: nat
    const slots: array<Option<Fence>>
    var emitted: nat                   // names the next fence object
    var signals: seq<Fence>            // fence_signal calls, in order
    ghost var written: nat             // history: fences passed by the GPU, fences signalled
    ghost var claimed: nat

    ghost predicate Valid()
      reads this, slots
    {
      && 1 <= k <= 31 && slots.Length == Pow2(k)
      && syncSeq == emitted % WORD && word == written % WORD && lastSeq == claimed % WORD
      && claimed <= written <= emitted <= claimed + Pow2(k)
      && signals == Numbers(0, claimed)
      && Holds(slots[..], Pow2(k), claimed, emitted)
    }

    constructor (k: nat)
      requires 1 <= k <= 31
      ensures Valid() && fresh(slots) && this.k == k && emitted == written == claimed == 0
    {
      this.k := k;
      syncSeq, lastSeq, word, signals := 0, 0, 0, [];
      slots := new Option<Fence>[Pow2(k)](_ => None);
      emitted, written, claimed := 0, 0, 0;
    }

    /** The GPU passes `n` more frames. */
    method GpuAdvance(n: nat)
      requires Valid() && written + n <= emitted
      modifies this`word, this`written
      ensures Valid() && written == old(written) + n
    {
      AddMod(written, n);
      word := (word + n) % WORD;
      written := written + n;
    }

    /** Signals exactly the fences passed by the GPU and not yet signalled, once each and in order. */
    method Process()
      requires Valid()
      modifies this`lastSeq, this`signals, this`claimed, slots
      ensures Valid() && claimed == written
      ensures signals == old(signals) + Numbers(old(claimed), written)
    {
      var last, hw := lastSeq, word;
      lastSeq := hw;                   // the exchange
      RingBelowWord(k);
      if hw == last {
        ModWindow(claimed, written, WORD);
        return;
      }
      MaskedIndex(claimed, k);
      MaskedIndex(written, k);
      Walk(And(last, Pow2(k) - 1), And(hw, Pow2(k) - 1), claimed);
      claimed := written;
      assert signals == Numbers(0, old(claimed)) + Numbers(old(claimed), written);
    }

    /** The do-while loop on masked numbers, for the fences `lo + 1 .. written`. */
    method Walk(first: nat, end: nat, ghost lo: nat)
      requires slots.Length == Pow2(k) && lo < written <= emitted && written <= lo + slots.Length
      requires Holds(slots[..], slots.Length, lo, emitted) && signals == Numbers(0, lo)
      requires first == lo % slots.Length && end == written % slots.Length
      modifies this`signals, slots
      ensures Holds(slots[..], slots.Length, written, emitted) && signals == Numbers(0, written)
    {
      var cur, done := first, false;
      ghost var pos := lo;
      while !done
        invariant cur == pos % slots.Length
        invariant lo <= pos <= written && (done <==> pos == written)
        invariant signals == Numbers(0, pos) && Holds(slots[..], slots.Length, pos, emitted)
        decreases written - pos
      {
        MaskedNext(pos, k);
        cur := And(cur + 1, Pow2(k) - 1);
        SignalSlot(cur, pos);
        pos := pos + 1;
        if cur == end { ModWindow(pos, written, slots.Length); }
        done := cur == end;
      }
    }

    /** One turn of the loop: empty the slot, then signal its fence. */
    method SignalSlot(cur: nat, ghost pos: nat)
      requires Holds(slots[..], slots.Length, pos, emitted) && signals == Numbers(0, pos)
      requires pos < emitted && cur == (pos + 1) % slots.Length
      modifies this`signals, slots
      ensures Holds(slots[..], slots.Length, pos + 1, emitted) && signals == Numbers(0, pos + 1)
    {
      TakeOldest(slots[..], slots.Length, pos, emitted);
      var fence := slots[cur];
      ghost var before := slots[..];
      slots[cur] := None;
      assert slots[..] == before[cur := None];
      if fence.Some? {
        signals := signals + [fence.value];
      }
    }

    /** `amdgpu_fence_emit`. If the slot is still busy the call waits; by then the GPU has passed `caught`
        more frames and another caller has processed them. */
    method Emit(caught: nat) returns (fence: Fence)
      requires Valid() && written + caught <= emitted
      requires emitted == claimed + Pow2(k) ==> written + caught > claimed
      modifies this, slots
      ensures Valid() && fence == emitted == old(emitted) + 1
      ensures slots[emitted % Pow2(k)] == Some(emitted)
      ensures old(emitted) < old(claimed) + Pow2(k) ==> signals == old(signals) && written == old(written)
      ensures old(emitted) == old(claimed) + Pow2(k) ==>
        written == old(written) + caught && signals == old(signals) + Numbers(old(claimed), written)
    {
      Next();
      var num := (syncSeq + 1) % WORD;
      var i := And(num, Pow2(k) - 1);
      var busy := slots[i];
      BusyIfFull(i);
      if busy.Some? && busy.value !in signals {
        GpuAdvance(caught);
        Process();
      }
      Store(num, i);
      fence := emitted;
    }

    /** The next number and its slot. */
    lemma Next()
      requires Valid()
      ensures (syncSeq + 1) % WORD == (emitted + 1) % WORD
      ensures And((syncSeq + 1) % WORD, Pow2(k) - 1) == (emitted + 1) % Pow2(k) < slots.Length
    {
      ModSucc(emitted, WORD);
      MaskedIndex(emitted + 1, k);
    }

    /** The slot for the next fence holds an unsignalled one exactly if the ring is full. */
    lemma BusyIfFull(i: nat)
      requires Valid() && i == (emitted + 1) % Pow2(k) < slots.Length
      ensures slots[i].Some? && slots[i].value !in signals <==> emitted == claimed + Pow2(k)
    {
      if emitted < claimed + Pow2(k) {
        StoreNext(slots[..], Pow2(k), claimed, emitted);
      } else {
        FullRing(slots[..], Pow2(k), claimed, emitted);
      }
    }

    /** The frame is written and the fence stored. */
    method Store(num: nat, i: nat)
      requires Valid() && emitted < claimed + Pow2(k)
      requires num == (emitted + 1) % WORD && i == (emitted + 1) % Pow2(k) < slots.Length
      modifies this`syncSeq, this`emitted, slots
      ensures Valid() && emitted == old(emitted) + 1 && slots[i] == Some(emitted)
    {
      StoreNext(slots[..], Pow2(k), claimed, emitted);
      ghost var before := slots[..];
      syncSeq := num;
      emitted := emitted + 1;
      slots[i] := Some(emitted);
      assert slots[..] == before[i := Some(emitted)];
    }
  }
}
