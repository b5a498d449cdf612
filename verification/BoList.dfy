/** Buffer lists (amdgpu_bo_list.c): filling the array from both ends, and the stable bucket sort. */
module BoList {
  import opened Wrappers

  const MAX_PRIORITY: nat := 32
  const NUM_BUCKETS: nat := 33

  type Bo = nat

  datatype Entry = Entry(bo: Bo, priority: nat)

  /** What the lookup of one requested handle finds: nothing, user memory of another process, user memory of the
      caller, or a plain buffer. */
  datatype Item = Missing | Foreign(bo: Bo) | User(bo: Bo, priority: nat) | Plain(bo: Bo, priority: nat)

  datatype Ret = Ok | ENOENT | EPERM

  // ---------------------------------------------------------------------------------------------
  // amdgpu_bo_list_set

  predicate Good(i: Item) {
    i.User? || i.Plain?
  }

  function ToEntry(i: Item): Entry
    requires Good(i)
  {
    Entry(i.bo, if i.priority < MAX_PRIORITY then i.priority else MAX_PRIORITY)
  }

  /** How many of the first `i` items are user memory (or are not). */
  function Rank(items: seq<Item>, i: nat, user: bool): (r: nat)
    requires i <= |items|
    ensures r <= i
  {
    if i == 0 then 0 else Rank(items, i - 1, user) + if items[i - 1].User? == user then 1 else 0
  }

  lemma {:induction false} RanksAdd(items: seq<Item>, i: nat)
    requires i <= |items|
    ensures Rank(items, i, true) + Rank(items, i, false) == i
  {
    if i > 0 { RanksAdd(items, i - 1); }
  }

  lemma {:induction false} RankMonotone(items: seq<Item>, i: nat, j: nat, user: bool)
    requires i <= j <= |items|
    ensures Rank(items, i, user) <= Rank(items, j, user)
    ensures i < j && items[i].User? == user ==> Rank(items, i, user) < Rank(items, j, user)
    decreases j
  {
    if i < j { RankMonotone(items, i, j - 1, user); }
  }

  /** Where an item goes: plain ones in request order from the left, user memory in request order from the right. */
  function SlotOf(items: seq<Item>, i: nat): int
    requires i < |items|
  {
    if items[i].User? then |items| - 1 - Rank(items, i, true) else Rank(items, i, false)
  }

  /** Different items go to different slots of the array, and all plain ones to the left of `first`. */
  lemma SlotsDiffer(items: seq<Item>, i: nat, j: nat)
    requires i < j < |items|
    ensures 0 <= SlotOf(items, i) < |items| && SlotOf(items, i) != SlotOf(items, j)
  {
    RankMonotone(items, i, j, items[i].User?);
    RanksAdd(items, j);
    RanksAdd(items, i);
    RankMonotone(items, i, j, !items[i].User?);
  }

  /** Plain buffers are in request order from the left, and user memory from the right. */
  lemma SlotsInOrder(items: seq<Item>, i: nat, j: nat)
    requires i < j < |items| && items[i].User? == items[j].User?
    ensures if items[i].User? then SlotOf(items, i) > SlotOf(items, j) else SlotOf(items, i) < SlotOf(items, j)
  {
    RankMonotone(items, i, j, items[i].User?);
  }

  /** User memory and plain buffers are parted at the number of plain buffers. */
  lemma SlotsParted(items: seq<Item>, i: nat)
    requires i < |items|
    ensures 0 <= SlotOf(items, i) < |items|
    ensures items[i].User? <==> SlotOf(items, i) >= Rank(items, |items|, false)
  {
    RanksAdd(items, i);
    RanksAdd(items, |items|);
    RankMonotone(items, i, |items|, items[i].User?);
  }

  /** The first item that stops the request, or the number of items. */
  function FirstBad(items: seq<Item>): (k: nat)
    ensures k <= |items|
    ensures forall i :: 0 <= i < k ==> Good(items[i])
    ensures k < |items| ==> !Good(items[k])
  {
    if items == [] || !Good(items[0]) then 0 else 1 + FirstBad(items[1..])
  }

  lemma FirstBadAt(items: seq<Item>, k: nat)
    requires k <= |items| && (forall i :: 0 <= i < k ==> Good(items[i])) && (k < |items| ==> !Good(items[k]))
    ensures FirstBad(items) == k
  {
  }

  /** The array after the first `k` items; a filled slot is named by its item. */
  ghost predicate Filled(a: seq<Option<nat>>, items: seq<Item>, k: nat)
    requires k <= |items|
  {
    && |a| == |items|
    && (forall i :: 0 <= i < k ==> 0 <= SlotOf(items, i) < |a| && a[SlotOf(items, i)] == Some(i))
    && (forall p :: 0 <= p < |a| && a[p].Some? ==> a[p].value < k && SlotOf(items, a[p].value) == p)
  }

  lemma FilledNext(a: seq<Option<nat>>, items: seq<Item>, k: nat)
    requires k < |items| && Filled(a, items, k)
    ensures 0 <= SlotOf(items, k) < |a| && Filled(a[SlotOf(items, k) := Some(k)], items, k + 1)
  {
    SlotsParted(items, k);
    forall i | 0 <= i < k
      ensures SlotOf(items, i) != SlotOf(items, k)
    {
      SlotsDiffer(items, i, k);
    }
  }

  /** References still held after item `k` failed, named by the items that took them: the clean-up walks slots
      `0 .. k - 1`, although user entries sit at the other end. */
  ghost function Leaked(items: seq<Item>, k: nat): set<nat>
    requires k < |items|
  {
    set i: nat | i < k && SlotOf(items, i) >= k
  }

  /** The clean-up drops every reference exactly if no user memory was among the items taken before the failure. */
  lemma CleanUpCompleteIff(items: seq<Item>, k: nat)
    requires k < |items| && forall i :: 0 <= i < k ==> Good(items[i])
    ensures Leaked(items, k) == {} <==> forall i :: 0 <= i < k ==> items[i].Plain?
  {
    if forall i :: 0 <= i < k ==> items[i].Plain? {
      assert forall i: nat :: i < k ==> SlotOf(items, i) == Rank(items, i, false) <= i;
    } else {
      var i := FirstUser(items, k);
      assert SlotOf(items, i) == |items| - 1;
      assert i in Leaked(items, k);
    }
  }

  /** User memory followed by a handle that is not found: the reference to the first is never dropped. */
  lemma CleanUpLeaks(bo: Bo)
    ensures FirstBad([User(bo, 0), Missing]) == 1 && Leaked([User(bo, 0), Missing], 1) == {0}
  {
    var items := [User(bo, 0), Missing];
    FirstBadAt(items, 1);
    assert SlotOf(items, 0) == 1;
  }

  lemma {:induction false} FirstUser(items: seq<Item>, k: nat) returns (i: nat)
    requires k <= |items| && exists j :: 0 <= j < k && items[j].User?
    ensures i < k && items[i].User? && Rank(items, i, true) == 0
  {
    if exists j :: 0 <= j < k - 1 && items[j].User? {
      i := FirstUser(items, k - 1);
    } else {
      i := k - 1;
      NoUsers(items, i);
    }
  }

  lemma {:induction false} NoUsers(items: seq<Item>, i: nat)
    requires i <= |items| && forall j :: 0 <= j < i ==> !items[j].User?
    ensures Rank(items, i, true) == 0
  {
    if i > 0 { NoUsers(items, i - 1); }
  }

  /** The loop at `error_free`. */
  method CleanUp(a: array<Option<nat>>, k: nat, held: set<nat>) returns (left: set<nat>)
    requires k <= a.Length
    ensures forall i :: i in left <==> i in held && forall p :: 0 <= p < k ==> a[p] != Some(i)
  {
    left := held;
    var p := k;
    while p > 0
      invariant 0 <= p <= k
      invariant forall i :: i in left <==> i in held && forall q :: p <= q < k ==> a[q] != Some(i)
    {
      p := p - 1;
      if a[p].Some? {
        left := left - {a[p].value};
      }
    }
  }

  /** `amdgpu_bo_list_set`: on success the list, with every entry in the slot its item is due; in any case the
      references still held. */
  method SetList(items: seq<Item>) returns (r: Ret, list: seq<Entry>, firstUserptr: nat, held: set<nat>)
    ensures r == Ok <==> FirstBad(items) == |items|
    ensures r == Ok <==> forall i :: 0 <= i < |items| ==> items[i].Plain? || items[i].User?
    ensures FirstBad(items) < |items| ==> r == if items[FirstBad(items)].Missing? then ENOENT else EPERM
    ensures r == Ok ==> |list| == |items| && Bounded(list) && firstUserptr == Rank(items, |items|, false)
    ensures r == Ok ==> forall i :: 0 <= i < |items| ==>
      && 0 <= SlotOf(items, i) < |list| && list[SlotOf(items, i)].bo == items[i].bo
      && list[SlotOf(items, i)].priority == (if items[i].priority <= 32 then items[i].priority else 32)
      && (items[i].User? <==> SlotOf(items, i) >= firstUserptr)
    ensures r == Ok ==> forall i :: i in held <==> 0 <= i < |items|
    ensures r != Ok ==> held == Leaked(items, FirstBad(items))
  {
    var a: array<Option<nat>> := new Option<nat>[|items|](_ => None);
    var k;
    k, firstUserptr, held := Fill(a, items);
    if k < |items| {
      r := if items[k].Missing? then ENOENT else EPERM;
      held := CleanUp(a, k, held);
      LeftIsLeaked(a[..], items, k, held);
      list := [];
      return;
    }
    RanksAdd(items, |items|);
    list := Export(a, items);
    forall i: nat | i < |items| {
      SlotsParted(items, i);
    }
    r := Ok;
  }

  /** The request loop, up to the first item that stops it. */
  method Fill(a: array<Option<nat>>, items: seq<Item>) returns (k: nat, firstUserptr: nat, held: set<nat>)
    requires a.Length == |items| && forall p :: 0 <= p < a.Length ==> a[p] == None
    modifies a
    ensures k == FirstBad(items) && Filled(a[..], items, k) && firstUserptr == |items| - Rank(items, k, true)
    ensures forall i :: i in held <==> 0 <= i < k
  {
    var last := 0;
    k, firstUserptr, held := 0, |items|, {};
    while k < |items| && !items[k].Missing? && !items[k].Foreign?
      invariant k <= |items| && forall i :: 0 <= i < k ==> Good(items[i])
      invariant Filled(a[..], items, k)
      invariant last == Rank(items, k, false) && firstUserptr == |items| - Rank(items, k, true)
      invariant forall i :: i in held <==> 0 <= i < k
    {
      FilledNext(a[..], items, k);
      ghost var before := a[..];
      if items[k].User? {
        firstUserptr := firstUserptr - 1;
        a[firstUserptr] := Some(k);
      } else {
        a[last] := Some(k);
        last := last + 1;
      }
      assert a[..] == before[SlotOf(items, k) := Some(k)];
      held := held + {k};
      k := k + 1;
    }
    FirstBadAt(items, k);
  }

  /** The finished array as a list of entries. */
  method Export(a: array<Option<nat>>, items: seq<Item>) returns (list: seq<Entry>)
    requires Filled(a[..], items, |items|) && forall i :: 0 <= i < |items| ==> Good(items[i])
    ensures |list| == |items| && Bounded(list)
    ensures forall i :: 0 <= i < |items| ==>
      0 <= SlotOf(items, i) < |list| && list[SlotOf(items, i)] == ToEntry(items[i])
  {
    AllFilled(a[..], items);
    list := [];
    for p := 0 to a.Length
      invariant |list| == p && Bounded(list) && forall q :: 0 <= q < p ==> list[q] == ToEntry(items[a[..][q].value])
    {
      assert a[p] == a[..][p];
      list := list + [ToEntry(items[a[p].value])];
    }
  }

  lemma LeftIsLeaked(a: seq<Option<nat>>, items: seq<Item>, k: nat, left: set<nat>)
    requires k < |items| && Filled(a, items, k)
    requires forall i :: i in left <==> 0 <= i < k && forall p :: 0 <= p < k ==> a[p] != Some(i)
    ensures left == Leaked(items, k)
  {
    forall i: nat | i < k
      ensures i in left <==> SlotOf(items, i) >= k
    {
      assert a[SlotOf(items, i)] == Some(i);
    }
  }

  /** Once every item is placed no slot is empty. */
  lemma AllFilled(a: seq<Option<nat>>, items: seq<Item>)
    requires Filled(a, items, |items|)
    ensures forall p :: 0 <= p < |a| ==> a[p].Some?
  {
    forall p | 0 <= p < |a|
      ensures a[p].Some?
    {
      var i := ItemAt(items, p);
      assert a[SlotOf(items, i)] == Some(i);
    }
  }

  /** Every slot is due to some item. */
  lemma ItemAt(items: seq<Item>, p: nat) returns (i: nat)
    requires p < |items|
    ensures i < |items| && SlotOf(items, i) == p
  {
    RanksAdd(items, |items|);
    if p < Rank(items, |items|, false) {
      i := WithRank(items, |items|, false, p);
    } else {
      i := WithRank(items, |items|, true, |items| - 1 - p);
    }
  }

  lemma {:induction false} WithRank(items: seq<Item>, n: nat, user: bool, rank: nat) returns (i: nat)
    requires n <= |items| && rank < Rank(items, n, user)
    ensures i < n && items[i].User? == user && Rank(items, i, user) == rank
  {
    if rank < Rank(items, n - 1, user) {
      i := WithRank(items, n - 1, user, rank);
    } else {
      i := n - 1;
    }
  }

  // ---------------------------------------------------------------------------------------------
  // amdgpu_bo_list_get_list

  /** The entries of one priority, in order. */
  function Filter(xs: seq<Entry>, p: nat): seq<Entry> {
    if xs == [] then [] else
    Filter(xs[..|xs| - 1], p) + if xs[|xs| - 1].priority == p then [xs[|xs| - 1]] else []
  }

  /** Buckets `p - 1`, ..., 0, concatenated. */
  function Descending(xs: seq<Entry>, p: nat): seq<Entry> {
    if p == 0 then [] else Filter(xs, p - 1) + Descending(xs, p - 1)
  }

  function Sorted(xs: seq<Entry>): seq<Entry> {
    Descending(xs, NUM_BUCKETS)
  }

  ghost predicate IsDescending(xs: seq<Entry>) {
    forall i, j :: 0 <= i < j < |xs| ==> xs[i].priority >= xs[j].priority
  }

  ghost predicate AllAt(xs: seq<Entry>, p: nat) {
    forall i :: 0 <= i < |xs| ==> xs[i].priority == p
  }

  ghost predicate AllBelow(xs: seq<Entry>, p: nat) {
    forall i :: 0 <= i < |xs| ==> xs[i].priority < p
  }

  lemma {:induction false} FilterAt(xs: seq<Entry>, p: nat)
    ensures AllAt(Filter(xs, p), p)
  {
    if xs != [] { FilterAt(xs[..|xs| - 1], p); }
  }

  lemma PrependBucket(b: seq<Entry>, rest: seq<Entry>, p: nat)
    requires AllAt(b, p) && IsDescending(rest) && AllBelow(rest, p)
    ensures IsDescending(b + rest) && AllBelow(b + rest, p + 1)
  {
  }

  lemma {:induction false} DescendingOrder(xs: seq<Entry>, p: nat)
    ensures IsDescending(Descending(xs, p)) && AllBelow(Descending(xs, p), p)
  {
    if p > 0 {
      DescendingOrder(xs, p - 1);
      FilterAt(xs, p - 1);
      PrependBucket(Filter(xs, p - 1), Descending(xs, p - 1), p - 1);
    }
  }

  lemma Associative(a: seq<Entry>, b: seq<Entry>, c: seq<Entry>)
    ensures (a + b) + c == a + (b + c)
  {
  }

  lemma {:induction false} FilterConcat(xs: seq<Entry>, ys: seq<Entry>, p: nat)
    ensures Filter(xs + ys, p) == Filter(xs, p) + Filter(ys, p)
    decreases |ys|
  {
    if ys == [] {
      assert xs + ys == xs;
    } else {
      var n := |ys| - 1;
      FilterConcat(xs, ys[..n], p);
      var zs, last := xs + ys, if ys[n].priority == p then [ys[n]] else [];
      assert zs[..|zs| - 1] == xs + ys[..n];
      Associative(Filter(xs, p), Filter(ys[..n], p), last);
    }
  }

  lemma {:induction false} FilterAll(xs: seq<Entry>, p: nat)
    requires AllAt(xs, p)
    ensures Filter(xs, p) == xs
  {
    if xs != [] {
      FilterAll(xs[..|xs| - 1], p);
    }
  }

  lemma {:induction false} FilterNone(xs: seq<Entry>, q: nat)
    requires forall i :: 0 <= i < |xs| ==> xs[i].priority != q
    ensures Filter(xs, q) == []
  {
    if xs != [] {
      FilterNone(xs[..|xs| - 1], q);
    }
  }

  lemma FilterFilter(xs: seq<Entry>, p: nat, q: nat)
    requires AllAt(xs, q)
    ensures Filter(xs, p) == if p == q then xs else []
  {
    if p == q { FilterAll(xs, p); } else { FilterNone(xs, p); }
  }

  /** The sort is stable: entries of equal priority keep their order. */
  lemma {:induction false} DescendingStable(xs: seq<Entry>, p: nat, q: nat)
    ensures Filter(Descending(xs, p), q) == if q < p then Filter(xs, q) else []
  {
    if p > 0 {
      DescendingStable(xs, p - 1, q);
      FilterAt(xs, p - 1);
      StableStep(Filter(xs, p - 1), Descending(xs, p - 1), p - 1, q, Filter(xs, q));
    }
  }

  lemma StableStep(b: seq<Entry>, rest: seq<Entry>, p: nat, q: nat, want: seq<Entry>)
    requires AllAt(b, p) && Filter(rest, q) == if q < p then want else []
    ensures Filter(b + rest, q) == if q == p then b else if q < p then want else []
  {
    FilterFirst(b, rest, p, q);
  }

  lemma FilterFirst(b: seq<Entry>, rest: seq<Entry>, p: nat, q: nat)
    requires AllAt(b, p)
    ensures q == p && Filter(rest, q) == [] ==> Filter(b + rest, q) == b
    ensures q != p ==> Filter(b + rest, q) == Filter(rest, q)
  {
    FilterConcat(b, rest, q);
    FilterFilter(b, q, p);
  }

  ghost predicate Bounded(xs: seq<Entry>) {
    AllBelow(xs, NUM_BUCKETS)
  }

  /** The sorted list is a permutation, in descending order, and stable. */
  lemma SortedIsStableSort(xs: seq<Entry>)
    requires Bounded(xs)
    ensures IsDescending(Sorted(xs))
    ensures forall q :: 0 <= q ==> Filter(Sorted(xs), q) == Filter(xs, q)
    ensures multiset(Sorted(xs)) == multiset(xs)
  {
    DescendingOrder(xs, NUM_BUCKETS);
    forall q: nat
      ensures Filter(Sorted(xs), q) == Filter(xs, q)
    {
      DescendingStable(xs, NUM_BUCKETS, q);
      if q >= NUM_BUCKETS { FilterNone(xs, q); }
    }
    SameFiltersSameMultiset(Sorted(xs), xs);
  }

  lemma {:induction false} FilterCount(xs: seq<Entry>, e: Entry)
    ensures multiset(Filter(xs, e.priority))[e] == multiset(xs)[e]
  {
    if xs != [] {
      FilterCount(xs[..|xs| - 1], e);
      assert xs == xs[..|xs| - 1] + [xs[|xs| - 1]];
    }
  }

  lemma SameFiltersSameMultiset(xs: seq<Entry>, ys: seq<Entry>)
    requires forall q :: 0 <= q ==> Filter(xs, q) == Filter(ys, q)
    ensures multiset(xs) == multiset(ys)
  {
    forall e: Entry
      ensures multiset(xs)[e] == multiset(ys)[e]
    {
      FilterCount(xs, e);
      FilterCount(ys, e);
    }
  }

  lemma {:induction false} SameFiltersSameBuckets(xs: seq<Entry>, ys: seq<Entry>, p: nat)
    requires forall q :: 0 <= q < p ==> Filter(xs, q) == Filter(ys, q)
    ensures Descending(xs, p) == Descending(ys, p)
  {
    if p > 0 { SameFiltersSameBuckets(xs, ys, p - 1); }
  }

  lemma {:induction false} OrderedIsItsOwnSort(ys: seq<Entry>, p: nat)
    requires IsDescending(ys) && AllBelow(ys, p)
    ensures Descending(ys, p) == ys
    decreases p
  {
    if p == 0 {
      BelowZero(ys);
    } else {
      var top, rest := TopBucket(ys, p - 1);
      OrderedIsItsOwnSort(rest, p - 1);
      OrderedNext(ys, top, rest, p - 1);
    }
  }

  lemma OrderedNext(ys: seq<Entry>, top: seq<Entry>, rest: seq<Entry>, p: nat)
    requires ys == top + rest && AllAt(top, p) && AllBelow(rest, p) && Descending(rest, p) == rest
    ensures Descending(ys, p + 1) == ys
  {
    TopThenRest(top, rest, p);
  }

  lemma BelowZero(ys: seq<Entry>)
    requires AllBelow(ys, 0)
    ensures ys == [] == Descending(ys, 0)
  {
    assert ys != [] ==> ys[0].priority < 0;
  }

  lemma TopThenRest(top: seq<Entry>, rest: seq<Entry>, p: nat)
    requires AllAt(top, p) && AllBelow(rest, p)
    ensures Descending(top + rest, p + 1) == top + Descending(rest, p)
  {
    FilterNone(rest, p);
    FilterFirst(top, rest, p, p);
    forall q | 0 <= q < p
      ensures Filter(top + rest, q) == Filter(rest, q)
    {
      FilterFirst(top, rest, p, q);
    }
    SameFiltersSameBuckets(top + rest, rest, p);
  }

  lemma TopBucket(ys: seq<Entry>, p: nat) returns (top: seq<Entry>, rest: seq<Entry>)
    requires IsDescending(ys) && AllBelow(ys, p + 1)
    ensures ys == top + rest && AllAt(top, p) && AllBelow(rest, p) && IsDescending(rest)
  {
    var k := 0;
    while k < |ys| && ys[k].priority == p
      invariant k <= |ys| && forall i :: 0 <= i < k ==> ys[i].priority == p
    {
      k := k + 1;
    }
    top, rest := ys[..k], ys[k..];
  }

  /** No other list is both ordered and stable. */
  lemma StableSortUnique(xs: seq<Entry>, ys: seq<Entry>)
    requires Bounded(xs) && Bounded(ys) && IsDescending(ys)
    requires forall q :: 0 <= q ==> Filter(ys, q) == Filter(xs, q)
    ensures ys == Sorted(xs)
  {
    OrderedIsItsOwnSort(ys, NUM_BUCKETS);
    SameFiltersSameBuckets(ys, xs, NUM_BUCKETS);
  }

  lemma FilterNext(xs: seq<Entry>, i: nat, p: nat)
    requires i < |xs|
    ensures Filter(xs[..i + 1], p) == Filter(xs[..i], p) + if xs[i].priority == p then [xs[i]] else []
  {
    assert xs[..i + 1][..i] == xs[..i];
  }

  /** The buckets, each holding the entries of its priority in list order. */
  method FillBuckets(list: seq<Entry>) returns (bucket: array<seq<Entry>>)
    requires Bounded(list)
    ensures bucket.Length == NUM_BUCKETS && forall p :: 0 <= p < NUM_BUCKETS ==> bucket[p] == Filter(list, p)
  {
    bucket := new seq<Entry>[NUM_BUCKETS](_ => []);
    for i := 0 to |list|
      invariant fresh(bucket) && bucket.Length == NUM_BUCKETS
      invariant forall p :: 0 <= p < NUM_BUCKETS ==> bucket[p] == Filter(list[..i], p)
    {
      forall p: nat | p < NUM_BUCKETS {
        FilterNext(list, i, p);
      }
      var p := list[i].priority;
      bucket[p] := bucket[p] + [list[i]];
    }
    assert list[..|list|] == list;
  }

  /** `amdgpu_bo_list_get_list`: the sorted list goes in front of what `validated` held. */
  method GetList(list: seq<Entry>, validated: seq<Entry>) returns (out: seq<Entry>)
    requires Bounded(list)
    ensures out == Sorted(list) + validated
  {
    var bucket := FillBuckets(list);
    out := validated;
    for i := 0 to NUM_BUCKETS
      invariant forall p :: 0 <= p < NUM_BUCKETS ==> bucket[p] == Filter(list, p)
      invariant out == Descending(list, i) + validated
    {
      Associative(bucket[i], Descending(list, i), validated);
      out := bucket[i] + out;
    }
  }
}
