/** User pages of a command submission (the retry loop and clean-up of amdgpu_cs_parser_bos).

Page arrays can only be filled while no buffer is reserved, and can be invalidated by the MMU notifier at any
time; so the driver reserves, looks, lets go, fills and tries again, at most ten times. Everything another
task or the kernel does is a nondeterministic step with a contract.
 */
module UserPages {
  import opened Wrappers

  datatype Ret = Ok | EDEADLK | ENOMEM | Other(code: int)

  /** What becomes of a page array: pages released and array freed, pages handed to TTM and array freed, or array
      freed because no pages were obtained. */
  datatype Fate = Released | Handed | Discarded

  type ArrayId = nat

  /** One userptr entry of the buffer list. `last` is its `user_invalidated`; `stamp` records the invalidation
      count of the buffer when the array was filled. */
  datatype Entry = Entry(pages: Option<ArrayId>, bound: bool, last: nat, stamp: nat)

  ghost predicate Holds(es: seq<Entry>, a: ArrayId) {
    exists i :: 0 <= i < |es| && es[i].pages == Some(a)
  }

  ghost predicate Injective(es: seq<Entry>) {
    forall i, j :: 0 <= i < j < |es| && es[i].pages.Some? ==> es[i].pages != es[j].pages
  }

  /** Every array ever allocated is held by exactly one entry or has met exactly one fate. */
  ghost predicate Accounted(es: seq<Entry>, fate: map<ArrayId, Fate>, next: nat) {
    && Injective(es)
    && (forall a :: a in fate ==> a < next && !Holds(es, a))
    && (forall a :: 0 <= a < next && a !in fate ==> Holds(es, a))
    && (forall i :: 0 <= i < |es| && es[i].pages.Some? ==> es[i].pages.value < next)
  }

  /** No array has been handed to TTM. */
  ghost predicate NoneHanded(fate: map<ArrayId, Fate>) {
    forall a :: a in fate ==> fate[a] != Handed
  }

  lemma UpdateHolds(es: seq<Entry>, i: nat, e: Entry, b: ArrayId)
    requires i < |es| && e.pages != Some(b)
    ensures Holds(es[i := e], b) ==> Holds(es, b)
    ensures Injective(es) && es[i].pages == Some(b) ==> !Holds(es[i := e], b)
  {
    if Holds(es[i := e], b) {
      var j :| 0 <= j < |es| && es[i := e][j].pages == Some(b);
      assert es[j].pages == Some(b);
    }
  }

  /** An entry lets go of its array. */
  lemma Drop(es: seq<Entry>, fate: map<ArrayId, Fate>, next: nat, i: nat, e: Entry, f: Fate)
    requires Accounted(es, fate, next) && i < |es| && es[i].pages.Some? && e.pages == None
    ensures es[i].pages.value !in fate
    ensures Accounted(es[i := e], fate[es[i].pages.value := f], next)
  {
    var a, es' := es[i].pages.value, es[i := e];
    assert Holds(es, a);
    forall b: ArrayId | b < next && b !in fate[a := f]
      ensures Holds(es', b)
    {
      var j :| 0 <= j < |es| && es[j].pages == Some(b);
      assert es'[j].pages == Some(b);
    }
    forall b | b in fate[a := f]
      ensures b < next && !Holds(es', b)
    {
      UpdateHolds(es, i, e, b);
    }
  }

  /** An entry without an array gets a new one. */
  lemma Take(es: seq<Entry>, fate: map<ArrayId, Fate>, next: nat, i: nat, e: Entry)
    requires Accounted(es, fate, next) && i < |es| && es[i].pages == None && e.pages == Some(next)
    ensures Accounted(es[i := e], fate, next + 1)
  {
    var es' := es[i := e];
    forall b: ArrayId | b < next + 1 && b !in fate
      ensures Holds(es', b)
    {
      if b == next {
        assert es'[i].pages == Some(b);
      } else {
        var j :| 0 <= j < |es| && es[j].pages == Some(b);
        assert es'[j].pages == Some(b);
      }
    }
    forall b | b in fate
      ensures !Holds(es', b)
    {
      UpdateHolds(es, i, e, b);
    }
  }

  /** An entry changes, but not its array. */
  lemma Keep(es: seq<Entry>, fate: map<ArrayId, Fate>, next: nat, es': seq<Entry>)
    requires Accounted(es, fate, next) && |es'| == |es|
    requires forall i :: 0 <= i < |es| ==> es'[i].pages == es[i].pages
    ensures Accounted(es', fate, next)
  {
    forall a: ArrayId
      ensures Holds(es', a) <==> Holds(es, a)
    {
      if Holds(es, a) {
        var i :| 0 <= i < |es| && es[i].pages == Some(a);
        assert es'[i].pages == Some(a);
      }
      if Holds(es', a) {
        var i :| 0 <= i < |es'| && es'[i].pages == Some(a);
        assert es[i].pages == Some(a);
      }
    }
  }

  /** An array is allocated and discarded at once. */
  lemma Waste(es: seq<Entry>, fate: map<ArrayId, Fate>, next: nat)
    requires Accounted(es, fate, next)
    ensures next !in fate && Accounted(es, fate[next := Discarded], next + 1)
  {
  }

  class Parser {
    var entries: seq<Entry>
    var invalidations: seq<nat>        // per buffer: gtt->mmu_invalidations
    var next: ArrayId
    var fate: map<ArrayId, Fate>
    var scans: nat                     // history: passes over the entries

    ghost predicate Valid()
      reads this
    {
      && |invalidations| == |entries|
      && Accounted(entries, fate, next)
      && forall i :: 0 <= i < |entries| ==> StampOk(entries[i], invalidations[i])
    }

    /** Counters only grow, and no array is older than its entry's last look at the counter. */
    static predicate StampOk(e: Entry, count: nat) {
      e.last <= count && (e.pages.Some? ==> e.last <= e.stamp <= count)
    }

    /** `amdgpu_bo_list_get_list` has reset the page arrays. */
    constructor (entries: seq<Entry>, invalidations: seq<nat>)
      requires |entries| == |invalidations|
      requires forall i :: 0 <= i < |entries| ==> entries[i].pages == None && entries[i].last <= invalidations[i]
      ensures Valid() && this.entries == entries && fate == map[] && next == 0 && scans == 0
    {
      this.entries, this.invalidations := entries, invalidations;
      next, fate, scans := 0, map[], 0;
    }

    /** MMU notifiers run: invalidation counts grow. */
    method Notify()
      requires Valid()
      modifies this`invalidations
      ensures Valid() && forall i :: 0 <= i < |entries| ==> invalidations[i] >= old(invalidations)[i]
    {
      var i: nat :| i >= 0;
      if i < |invalidations| {
        invalidations := invalidations[i := invalidations[i] + 1];
      }
    }

    /** The buffers are not reserved: another submission may bind one, a notifier may unbind one. */
    method OthersRun()
      requires Valid()
      modifies this`entries, this`invalidations
      ensures Valid() && |entries| == |old(entries)|
      ensures forall i :: 0 <= i < |entries| ==> entries[i] == old(entries)[i].(bound := entries[i].bound)
    {
      var i: nat, b: bool :| i >= 0 && (b || !b);
      if i < |entries| {
        entries := entries[i := entries[i].(bound := b)];
        Keep(old(entries), fate, next, entries);
      }
      Notify();
    }

    /** An array meets its fate. That it has met none before is a precondition at every call. */
    method Settle(a: ArrayId, f: Fate)
      requires a !in fate
      modifies this`fate
      ensures fate == old(fate)[a := f]
    {
      fate := fate[a := f];
    }

    /** `amdgpu_ttm_tt_userptr_invalidated` and the release of an invalidated array, for entry `i`. */
    method Look(i: nat)
      requires Valid() && i < |entries|
      modifies this`entries, this`invalidations, this`fate
      ensures Valid() && |entries| == |old(entries)|
      ensures entries == old(entries)[i := entries[i]] && entries[i].bound == old(entries)[i].bound
      ensures entries[i].pages.Some? ==>
        entries[i].pages == old(entries)[i].pages && entries[i].stamp == entries[i].last
      ensures entries[i].last == invalidations[i]
      ensures old(entries)[i].pages.Some? ==> (entries[i].pages == None <==> old(entries)[i].last != invalidations[i])
      ensures NoneHanded(old(fate)) ==> NoneHanded(fate)
    {
      Notify();
      var e := entries[i];
      var changed := e.last != invalidations[i];
      e := e.(last := invalidations[i]);
      if changed && e.pages.Some? {
        Drop(entries, fate, next, i, e.(pages := None), Released);
        Settle(e.pages.value, Released);
        e := e.(pages := None);
      } else {
        Keep(entries, fate, next, entries[i := e]);
      }
      entries := entries[i := e];
    }

    /** One pass over the userptr entries, with all buffers reserved: the entries that need pages. */
    method Scan() returns (need: seq<nat>)
      requires Valid()
      modifies this`entries, this`invalidations, this`fate, this`scans
      ensures Valid() && |entries| == |old(entries)| && scans == old(scans) + 1
      ensures forall k :: 0 <= k < |need| ==>
        need[k] < |entries| && entries[need[k]].pages == None && !entries[need[k]].bound
      ensures forall k, l :: 0 <= k < l < |need| ==> need[k] != need[l]
      ensures forall i :: 0 <= i < |entries| && i !in need ==> entries[i].bound || entries[i].pages.Some?
      ensures forall i :: 0 <= i < |entries| && entries[i].pages.Some? ==> entries[i].stamp == entries[i].last
      ensures NoneHanded(old(fate)) ==> NoneHanded(fate)
    {
      need, scans := [], scans + 1;
      for i := 0 to |entries|
        invariant Valid() && |entries| == |old(entries)| && (NoneHanded(old(fate)) ==> NoneHanded(fate))
        invariant scans == old(scans) + 1
        invariant forall k :: 0 <= k < |need| ==>
          need[k] < i && entries[need[k]].pages == None && !entries[need[k]].bound
        invariant forall k, l :: 0 <= k < l < |need| ==> need[k] != need[l]
        invariant forall j :: 0 <= j < i && j !in need ==> entries[j].bound || entries[j].pages.Some?
        invariant forall j :: 0 <= j < i && entries[j].pages.Some? ==> entries[j].stamp == entries[j].last
      {
        Look(i);
        if !entries[i].bound && entries[i].pages == None {
          need := [i] + need;
        }
      }
    }

    /** `drm_calloc_large` and `amdgpu_ttm_tt_get_user_pages` for entry `i`. */
    method FillOne(i: nat) returns (r: Ret)
      requires Valid() && i < |entries| && entries[i].pages == None
      modifies this`entries, this`invalidations, this`next, this`fate
      ensures Valid() && |entries| == |old(entries)| && entries == old(entries)[i := entries[i]] && next >= old(next)
      ensures r != EDEADLK
      ensures r == Ok ==> entries[i].pages.Some?
      ensures r != Ok ==> entries == old(entries)
      ensures NoneHanded(old(fate)) ==> NoneHanded(fate)
    {
      Notify();
      r :| r.Ok? || r.ENOMEM? || r.Other?;
      var e := entries[i].(pages := Some(next), stamp := invalidations[i]);
      if r == ENOMEM {
        return;                        // no array
      }
      if r == Ok {
        Take(entries, fate, next, i, e);
        entries := entries[i := e];
        next := next + 1;
      } else {
        Waste(entries, fate, next);
        Settle(next, Discarded);
        next := next + 1;
      }
    }

    /** The page arrays of all entries that need one. */
    method Fill(need: seq<nat>) returns (r: Ret)
      requires Valid()
      requires forall k :: 0 <= k < |need| ==> need[k] < |entries| && entries[need[k]].pages == None
      requires forall k, l :: 0 <= k < l < |need| ==> need[k] != need[l]
      modifies this`entries, this`invalidations, this`next, this`fate
      ensures Valid() && |entries| == |old(entries)| && r != EDEADLK && (NoneHanded(old(fate)) ==> NoneHanded(fate))
      ensures r == Ok ==> forall k :: 0 <= k < |need| ==> entries[need[k]].pages.Some?
      ensures forall i :: 0 <= i < |entries| && i !in need ==> entries[i] == old(entries)[i]
    {
      r := Ok;
      for k := 0 to |need|
        invariant r == Ok && Valid() && |entries| == |old(entries)| && (NoneHanded(old(fate)) ==> NoneHanded(fate))
        invariant forall l :: 0 <= l < k ==> need[l] < |entries| && entries[need[l]].pages.Some?
        invariant forall i :: 0 <= i < |entries| && i !in need ==> entries[i] == old(entries)[i]
        invariant forall l :: k <= l < |need| ==> need[l] < |entries| && entries[need[l]].pages == None
      {
        r := FillOne(need[k]);
        if r != Ok {
          return;
        }
      }
    }

    /** The retry loop: at most ten passes. After a normal exit every userptr entry is bound or carries an array
        that was not invalidated between being filled and the last look; it gives up only if the tenth pass finds an
        entry that needs pages. */
    method GetPages() returns (r: Ret)
      requires Valid()
      modifies this
      ensures Valid() && scans <= old(scans) + 10 && |entries| == |old(entries)|
      ensures r == EDEADLK ==>
        scans == old(scans) + 10 && exists i :: 0 <= i < |entries| && !entries[i].bound && entries[i].pages == None
      ensures r == Ok ==> scans > old(scans)
      ensures NoneHanded(old(fate)) ==> NoneHanded(fate)
      ensures r == Ok ==> forall i :: 0 <= i < |entries| ==>
        && (entries[i].bound || entries[i].pages.Some?)
        && (entries[i].pages.Some? ==> entries[i].stamp == entries[i].last)
    {
      var tries := 10;
      while true
        invariant Valid() && |entries| == |old(entries)| && (NoneHanded(old(fate)) ==> NoneHanded(fate))
        invariant 1 <= tries <= 10 && scans - old(scans) + tries == 10
        decreases tries
      {
        var reserved: Ret :| reserved.Ok? || reserved.Other?;
        if reserved != Ok {
          return reserved;
        }
        var need := Scan();
        if need == [] {
          return Ok;
        }
        tries := tries - 1;
        if tries == 0 {
          assert !entries[need[0]].bound;
          return EDEADLK;
        }
        var filled := Fill(need);
        if filled != Ok {
          return filled;
        }
        OthersRun();
      }
    }

    /** `amdgpu_cs_validate` on the buffer of entry `i`: TTM binds the buffer it has placed, or nothing happens. */
    method Validate(i: nat) returns (r: Ret)
      requires Valid() && i < |entries|
      modifies this`entries
      ensures Valid() && r != EDEADLK
      ensures entries == if r == Ok then old(entries)[i := old(entries)[i].(bound := true)] else old(entries)
    {
      r :| r.Ok? || r.ENOMEM? || r.Other?;
      if r == Ok {
        entries := entries[i := entries[i].(bound := true)];
        Keep(old(entries), fate, next, entries);
      }
    }

    /** One entry of `amdgpu_cs_list_validate`: if it carries an array and nobody has bound the buffer, the array is
        handed to TTM, unless validation fails. */
    method BindOne(i: nat) returns (r: Ret)
      requires Valid() && i < |entries|
      modifies this`entries, this`fate
      ensures Valid() && |entries| == |old(entries)| && r != EDEADLK
      ensures entries == old(entries)[i := entries[i]] && (r != Ok ==> entries == old(entries) && fate == old(fate))
      ensures r == Ok ==> entries[i].bound
      ensures var e := old(entries)[i];
        if r == Ok && e.pages.Some? && !e.bound
        then entries[i].pages == None && fate == old(fate)[e.pages.value := Handed]
        else entries[i].pages == e.pages && fate == old(fate)
    {
      var bindingUserptr := entries[i].pages.Some? && !entries[i].bound;
      r := Validate(i);
      if r != Ok {
        return;
      }
      if bindingUserptr {
        var e := entries[i];
        Drop(entries, fate, next, i, e.(pages := None), Handed);
        Settle(e.pages.value, Handed);
        entries := entries[i := e.(pages := None)];
      }
    }

    /** What the walk has done to entry `i`: it keeps its array, or the array was handed over and the buffer, unbound
        before, is bound. */
    static ghost predicate Bound(before: Entry, now: Entry, fate: map<ArrayId, Fate>) {
      && (before.bound ==> now.bound)
      && (before.pages.Some? ==>
            if now.pages == before.pages then before.pages.value !in fate
            else
              && now.pages == None && !before.bound && now.bound
              && before.pages.value in fate && fate[before.pages.value] == Handed)
    }

    /** The userptr part of `amdgpu_cs_list_validate`, over the entries the walk reaches, in its order. */
    method Bind(order: seq<nat>) returns (r: Ret)
      requires Valid() && forall k :: 0 <= k < |order| ==> order[k] < |entries|
      modifies this`entries, this`fate
      ensures Valid() && |entries| == |old(entries)| && r != EDEADLK
      ensures forall i :: 0 <= i < |entries| ==> Bound(old(entries)[i], entries[i], fate)
      ensures forall i :: 0 <= i < |entries| && i !in order ==> entries[i] == old(entries)[i]
      ensures r == Ok ==> forall i :: i in order ==> entries[i].bound
    {
      r := Ok;
      for k := 0 to |order|
        invariant Valid() && |entries| == |old(entries)| && r == Ok
        invariant forall i :: 0 <= i < |entries| ==> Bound(old(entries)[i], entries[i], fate)
        invariant forall i :: 0 <= i < |entries| && i !in order ==> entries[i] == old(entries)[i]
        invariant forall j :: 0 <= j < k ==> entries[order[j]].bound
      {
        r := BindOne(order[k]);
        if r != Ok {
          return;
        }
      }
    }

    /** The loop at `error_free_pages`, reached on success as well. The entries are not reset. */
    method FreePages()
      requires Valid()
      modifies this`fate
      ensures forall a :: a in fate <==> 0 <= a < next
      ensures forall a :: a in fate ==> fate[a] == if a in old(fate) then old(fate)[a] else Released
    {
      for i := 0 to |entries|
        invariant forall a :: a in fate <==> a in old(fate) || Holds(entries[..i], a)
        invariant forall a :: a in fate ==> fate[a] == if a in old(fate) then old(fate)[a] else Released
      {
        HoldsMore(entries, i);
        if entries[i].pages.Some? {
          Fresh(entries, i);
          assert Holds(entries, entries[i].pages.value);
          Settle(entries[i].pages.value, Released);
        }
      }
      assert entries[..|entries|] == entries;
    }

    /** `amdgpu_cs_parser_bos`, userptr part: on every path each page array ever allocated meets one fate; nothing
        is handed to TTM by a submission that gave up retrying. */
    method ParserBos(order: seq<nat>) returns (r: Ret)
      requires Valid() && fate == map[] && forall k :: 0 <= k < |order| ==> order[k] < |entries|
      modifies this
      ensures scans <= old(scans) + 10 && |entries| == |old(entries)|
      ensures forall a :: a in fate <==> 0 <= a < next
      ensures r == EDEADLK ==> scans == old(scans) + 10 && NoneHanded(fate)
      ensures r == Ok ==> forall i :: i in order ==> entries[i].bound
    {
      r := GetPages();
      if r == Ok {
        r := Bind(order);
      }
      FreePages();
    }
  }

  lemma HoldsMore(es: seq<Entry>, i: nat)
    requires i < |es|
    ensures forall a: ArrayId :: Holds(es[..i + 1], a) <==> Holds(es[..i], a) || es[i].pages == Some(a)
  {
    forall a: ArrayId
      ensures Holds(es[..i + 1], a) <==> Holds(es[..i], a) || es[i].pages == Some(a)
    {
      if Holds(es[..i], a) {
        var j :| 0 <= j < i && es[..i][j].pages == Some(a);
        assert es[..i + 1][j].pages == Some(a);
      }
      if es[i].pages == Some(a) { assert es[..i + 1][i].pages == Some(a); }
    }
  }

  lemma Fresh(es: seq<Entry>, i: nat)
    requires i < |es| && Injective(es) && es[i].pages.Some?
    ensures !Holds(es[..i], es[i].pages.value)
  {
  }
}
