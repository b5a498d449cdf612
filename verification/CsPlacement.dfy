/** Placement of the buffers of a command submission (amdgpu_cs.c): validate, evict, retry.

A submission walks its buffer list and asks TTM to place each buffer. When memory runs out it evicts
another buffer of the same list, moving that entry to the front of the very list being walked. TTM is a
nondeterministic step: success places the buffer in one of the requested domains, failure leaves it.
 */
module CsPlacement {
  import opened Lists

  datatype Domain = CPU | GTT | VRAM | GDS | GWS | OA | DGMA | DGMA_IMPORT

  type Bo = nat

  datatype Info = Info(pinned: bool, preferred: set<Domain>, allowed: set<Domain>, shadow: bool)

  datatype Ret = Ok | NoMem | Fail(code: int)

  const EPERM := 1

  /** One call of `ttm_bo_validate`: the domains its placement was built from, its result, the buffer whose validation
      it serves, which is another one if `bo` is being evicted, and the bytes the submission had moved before it. */
  datatype Call = Call(bo: Bo, domains: set<Domain>, ret: Ret, target: Bo, moved: nat)

  /** A list cursor: NULL, the list head, or an entry. */
  datatype Cursor = Null | Head | At(bo: Bo)

  /** `amdgpu_ttm_placement_from_domain`: no domain at all means system memory. */
  function Places(domains: set<Domain>): set<Domain> {
    if domains == {} then {CPU} else domains
  }

  /** What buffer creation establishes: the preferred domains are allowed, and VRAM is the only case in which
      more than the preferred domains are allowed. */
  predicate Good(i: Info) {
    i.allowed == i.preferred || (i.preferred == {VRAM} && i.allowed == {VRAM, GTT})
  }

  // ---------------------------------------------------------------------------------------------
  // Lists

  ghost predicate Distinct(list: seq<Bo>) {
    forall i, j :: 0 <= i < j < |list| ==> list[i] != list[j]
  }

  lemma IndexUnique(list: seq<Bo>, i: nat)
    requires Distinct(list) && i < |list|
    ensures IndexOf(list, list[i]) == i
  {
  }

  /** `list_move`: entry `i` goes to the front. */
  function MoveToFront(list: seq<Bo>, i: nat): seq<Bo>
    requires i < |list|
  {
    [list[i]] + list[..i] + list[i + 1..]
  }

  lemma MoveKeepsEntries(list: seq<Bo>, i: nat)
    requires i < |list|
    ensures multiset(MoveToFront(list, i)) == multiset(list)
  {
    assert list == list[..i] + [list[i]] + list[i + 1..];
  }

  lemma MoveKeepsDistinct(list: seq<Bo>, i: nat)
    requires Distinct(list) && i < |list|
    ensures Distinct(MoveToFront(list, i))
  {
    var list' := MoveToFront(list, i);
    assert forall j :: 0 <= j < |list| ==>
      list'[j] == if j == 0 then list[i] else if j <= i then list[j - 1] else list[j];
  }

  lemma MoveIsPermutation(list: seq<Bo>, i: nat)
    requires Distinct(list) && i < |list|
    ensures multiset(MoveToFront(list, i)) == multiset(list) && Distinct(MoveToFront(list, i))
    ensures forall b :: b in MoveToFront(list, i) <==> b in list
  {
    MoveKeepsEntries(list, i);
    MoveKeepsDistinct(list, i);
    var list' := MoveToFront(list, i);
    forall b
      ensures b in list' <==> b in list
    {
      assert b in list' <==> b in multiset(list');
      assert b in list <==> b in multiset(list);
    }
  }

  function Members(list: seq<Bo>): set<Bo> {
    set x | x in list
  }

  /** The entries after `b`. */
  function Behind(list: seq<Bo>, b: Bo): set<Bo>
    requires b in list
  {
    Members(list[IndexOf(list, b) + 1..])
  }

  /** Moving another entry to the front takes it from behind `b` and changes nothing else there. */
  lemma MoveBehind(list: seq<Bo>, i: nat, b: Bo)
    requires Distinct(list) && i < |list| && b in list && list[i] != b
    ensures b in MoveToFront(list, i) && Behind(MoveToFront(list, i), b) == Behind(list, b) - {list[i]}
  {
    var list', k := MoveToFront(list, i), IndexOf(list, b);
    MovePosition(list, i, b);
    if i > k {
      assert list'[k + 2..] == list[k + 1..i] + list[i + 1..];
      MembersWithout(list, k, i);
    } else {
      assert list'[k + 1..] == list[k + 1..];
    }
  }

  lemma MembersWithout(list: seq<Bo>, k: nat, i: nat)
    requires Distinct(list) && k < i < |list|
    ensures Members(list[k + 1..i] + list[i + 1..]) == Members(list[k + 1..]) - {list[i]}
  {
    var c := list[i];
    assert list[k + 1..] == list[k + 1..i] + [c] + list[i + 1..];
    assert c !in list[k + 1..i] && c !in list[i + 1..];
  }

  lemma MovePosition(list: seq<Bo>, i: nat, b: Bo)
    requires Distinct(list) && i < |list| && b in list && list[i] != b
    ensures var k := IndexOf(list, b);
      b in MoveToFront(list, i) && IndexOf(MoveToFront(list, i), b) == if i > k then k + 1 else k
  {
    var list', k := MoveToFront(list, i), IndexOf(list, b);
    MoveKeepsDistinct(list, i);
    var k' := if i > k then k + 1 else k;
    assert list'[k'] == b;
    IndexUnique(list', k');
  }

  // ---------------------------------------------------------------------------------------------
  // One eviction

  /** How many buffers of the list are resident in one of the domains. */
  ghost function Resident(list: seq<Bo>, mem: map<Bo, Domain>, domains: set<Domain>): nat {
    |InDomains(list, mem, domains)|
  }

  ghost function InDomains(list: seq<Bo>, mem: map<Bo, Domain>, domains: set<Domain>): set<Bo> {
    set b | b in list && b in mem && mem[b] in domains
  }

  /** Entry `i`, not the buffer being validated, moves from a domain that buffer may use to another domain the
      entry is allowed in, and to the front of the list. */
  ghost predicate Evicts(info: map<Bo, Info>, list: seq<Bo>, mem: map<Bo, Domain>, target: Bo, i: nat,
                         list': seq<Bo>, mem': map<Bo, Domain>)
    requires target in info
  {
    var domains := info[target].allowed;
    && i < |list| && list[i] in info && list[i] in mem
    && list[i] != target && mem[list[i]] in domains
    && list' == MoveToFront(list, i)
    && list[i] in mem' && mem'[list[i]] in info[list[i]].allowed - domains
    && mem' == mem[list[i] := mem'[list[i]]]
  }

  /** An entry can be evicted exactly if it is in a domain that `target` may use and is allowed in another. */
  lemma EvictedIff(info: map<Bo, Info>, list: seq<Bo>, mem: map<Bo, Domain>, target: Bo, i: nat)
    requires target in info && i < |list| && list[i] in info && list[i] in mem
    ensures (exists list', mem' :: Evicts(info, list, mem, target, i, list', mem')) <==>
      mem[list[i]] in info[target].allowed && !(info[list[i]].allowed <= info[target].allowed)
  {
    var b := list[i];
    if mem[b] in info[target].allowed && !(info[b].allowed <= info[target].allowed) {
      var d :| d in info[b].allowed && d !in info[target].allowed;
      assert Evicts(info, list, mem, target, i, MoveToFront(list, i), mem[b := d]);
    }
  }

  /** Every eviction strictly lowers the number of list buffers in the wanted domains. */
  lemma EvictionShrinks(info: map<Bo, Info>, list: seq<Bo>, mem: map<Bo, Domain>, target: Bo, i: nat,
                        list': seq<Bo>, mem': map<Bo, Domain>)
    requires target in info && Distinct(list) && Evicts(info, list, mem, target, i, list', mem')
    ensures Resident(list', mem', info[target].allowed) < Resident(list, mem, info[target].allowed)
  {
    var domains := info[target].allowed;
    MoveIsPermutation(list, i);
    var before, after := InDomains(list, mem, domains), InDomains(list', mem', domains);
    assert list[i] in before;
    assert after == before - {list[i]};
    assert |after| == |before| - 1;
  }

  // ---------------------------------------------------------------------------------------------
  // Validation of one buffer: what any number of evictions may have done meanwhile

  /** `b` has been moved from a domain `target` may use to an allowed one that `target` may not use. */
  ghost predicate MadeRoom(info: map<Bo, Info>, target: Bo, mem: map<Bo, Domain>, mem': map<Bo, Domain>, b: Bo)
    requires target in info
  {
    && b in info && b in mem && b in mem'
    && mem[b] in info[target].allowed && mem'[b] in info[b].allowed && mem'[b] !in info[target].allowed
  }

  /** Only buffers of the list other than `target` have moved, each to make room; the list is permuted; and exactly
      the entries that have left the part behind `target` have moved from there. */
  ghost predicate Settled(info: map<Bo, Info>, target: Bo, list: seq<Bo>, mem: map<Bo, Domain>,
                          list': seq<Bo>, mem': map<Bo, Domain>)
    requires target in info
  {
    && Distinct(list') && multiset(list') == multiset(list)
    && (forall b :: b in list' <==> b in list)
    && mem'.Keys == mem.Keys
    && (forall b :: b in mem && b != target && mem'[b] != mem[b] ==> b in list && MadeRoom(info, target, mem, mem', b))
    && (target in list ==>
          && Behind(list', target) <= Behind(list, target)
          && (forall b :: b in Behind(list', target) && b in mem ==> mem'[b] == mem[b])
          && forall b :: b in Behind(list, target) - Behind(list', target) ==> MadeRoom(info, target, mem, mem', b))
  }

  lemma SettledStart(info: map<Bo, Info>, target: Bo, list: seq<Bo>, mem: map<Bo, Domain>)
    requires Distinct(list) && target in info
    ensures Settled(info, target, list, mem, list, mem)
  {
  }

  lemma SettledTarget(info: map<Bo, Info>, target: Bo, list: seq<Bo>, mem: map<Bo, Domain>,
                      list': seq<Bo>, mem': map<Bo, Domain>, mem'': map<Bo, Domain>)
    requires target in info && Settled(info, target, list, mem, list', mem') && target in mem'
    requires target in mem'' && mem'' == mem'[target := mem''[target]] && Distinct(list)
    ensures Settled(info, target, list, mem, list', mem'')
  {
    if target in list { TargetNotBehind(list, target); }
    assert mem''.Keys == mem'.Keys;
  }

  lemma TargetNotBehind(list: seq<Bo>, b: Bo)
    requires Distinct(list) && b in list
    ensures b !in Behind(list, b)
  {
  }

  lemma SettledEvicts(info: map<Bo, Info>, target: Bo, list: seq<Bo>, mem: map<Bo, Domain>,
                      list1: seq<Bo>, mem1: map<Bo, Domain>, i: nat, list2: seq<Bo>, mem2: map<Bo, Domain>)
    requires target in info && Settled(info, target, list, mem, list1, mem1)
    requires Evicts(info, list1, mem1, target, i, list2, mem2)
    ensures Settled(info, target, list, mem, list2, mem2)
  {
    MoveIsPermutation(list1, i);
    assert mem2.Keys == mem1.Keys;
    var c := list1[i];
    assert mem1[c] == mem[c] && MadeRoom(info, target, mem, mem2, c);
    assert forall b :: b != c && MadeRoom(info, target, mem, mem1, b) ==> MadeRoom(info, target, mem, mem2, b);
    if target in list { MoveBehind(list1, i, target); }
  }

  // ---------------------------------------------------------------------------------------------
  // The walk over the list

  function NextCursor(list: seq<Bo>, b: Bo): Cursor
    requires b in list
  {
    var k := IndexOf(list, b);
    if k + 1 == |list| then Head else At(list[k + 1])
  }

  /** Entries at or behind the cursor, which the walk has still to visit. */
  function ToVisit(list: seq<Bo>, cur: Cursor): set<Bo>
    requires cur.At? ==> cur.bo in list
  {
    if cur.At? then {cur.bo} + Behind(list, cur.bo) else {}
  }

  lemma NextToVisit(list: seq<Bo>, b: Bo)
    requires b in list && Distinct(list)
    ensures NextCursor(list, b).At? ==> NextCursor(list, b).bo in list
    ensures ToVisit(list, NextCursor(list, b)) == Behind(list, b)
  {
    var k := IndexOf(list, b);
    if k + 1 < |list| {
      IndexUnique(list, k + 1);
      assert list[k + 1..] == [list[k + 1]] + list[k + 2..];
    }
  }

  predicate WellPlaced(info: map<Bo, Info>, mem: map<Bo, Domain>, b: Bo) {
    && b in info && b in mem
    && (info[b].pinned || mem[b] in info[b].allowed || (info[b].allowed == {} && mem[b] == CPU))
  }

  /** Every entry the walk will not visit any more is well placed. */
  ghost predicate Progress(info: map<Bo, Info>, list: seq<Bo>, mem: map<Bo, Domain>, cur: Cursor)
    requires cur.At? ==> cur.bo in list
  {
    forall b :: b in list && b !in ToVisit(list, cur) ==> WellPlaced(info, mem, b)
  }

  /** Validating the entry under the cursor and moving on keeps the progress made: an entry that evictions
      took out of the rest of the walk has been well placed by them. */
  lemma ProgressNext(info: map<Bo, Info>, b: Bo, list: seq<Bo>, mem: map<Bo, Domain>,
                     list': seq<Bo>, mem': map<Bo, Domain>)
    requires b in list && b in info && Distinct(list) && mem.Keys == info.Keys
    requires Progress(info, list, mem, At(b)) && Settled(info, b, list, mem, list', mem')
    requires WellPlaced(info, mem', b) && forall x :: x in list ==> x in info
    ensures var cur := NextCursor(list', b);
      && (cur.At? ==> cur.bo in list') && Progress(info, list', mem', cur)
      && |ToVisit(list', cur)| < |ToVisit(list, At(b))|
  {
    NextToVisit(list', b);
    var rest, rest' := Behind(list, b), Behind(list', b);
    VisitsShrink(list, b, rest');
    forall x | x in list' && x !in rest'
      ensures WellPlaced(info, mem', x)
    {
      if x != b && x !in rest {
        assert WellPlaced(info, mem, x);
        assert mem'[x] == mem[x] || MadeRoom(info, b, mem, mem', x);
      } else if x != b {
        assert MadeRoom(info, b, mem, mem', x);
      }
    }
  }

  lemma VisitsShrink(list: seq<Bo>, b: Bo, rest: set<Bo>)
    requires b in list && Distinct(list) && rest <= Behind(list, b)
    ensures |rest| < |ToVisit(list, At(b))|
  {
    TargetNotBehind(list, b);
    CardinalitySubset(rest, Behind(list, b));
    assert |{b} + Behind(list, b)| == 1 + |Behind(list, b)|;
  }

  lemma CardinalitySubset(a: set<Bo>, b: set<Bo>)
    requires a <= b
    ensures |a| <= |b|
  {
    if a != {} {
      var x :| x in a;
      CardinalitySubset(a - {x}, b - {x});
    }
  }

  // ---------------------------------------------------------------------------------------------
  // What is asked of TTM

  /** The calls made while validating `b`, with an allowance of `limit` bytes: for `b` its allowed domains or, while the
      allowance lasts, its preferred ones; for others, the allowed domains that `b` may not use. */
  ghost predicate Asked(info: map<Bo, Info>, b: Bo, limit: nat, before: seq<Call>, after: seq<Call>)
    requires b in info
  {
    && before <= after
    && forall k :: |before| <= k < |after| ==> AskedOne(info, b, limit, after[k])
  }

  predicate AskedOne(info: map<Bo, Info>, b: Bo, limit: nat, c: Call)
    requires b in info
  {
    && c.target == b
    && if c.bo == b then c.domains == info[b].allowed || (c.moved < limit && c.domains == info[b].preferred)
       else c.bo in info && c.domains == info[c.bo].allowed - info[b].allowed
  }

  lemma AskedAgain(info: map<Bo, Info>, b: Bo, limit: nat, c0: seq<Call>, c1: seq<Call>, c2: seq<Call>)
    requires b in info && Asked(info, b, limit, c0, c1) && Asked(info, b, limit, c1, c2)
    ensures Asked(info, b, limit, c0, c2)
  {
    forall k | |c0| <= k < |c2|
      ensures AskedOne(info, b, limit, c2[k])
    {
      if k < |c1| { assert c2[k] == c1[k]; }
    }
  }

  /** `amdgpu_cs_bo_validate` on an unpinned buffer makes one call, or, if its preferred domains are short of
      memory, a second one for all allowed domains; the last call's result is the answer. */
  ghost predicate Tries(i: Info, b: Bo, limit: nat, before: seq<Call>, after: seq<Call>, r: Ret) {
    && |before| < |after|
    && var m, n := after[|before|].moved, after[|after| - 1].moved;
       var first := if m < limit then i.preferred else i.allowed;
       || (after == before + [Call(b, first, r, b, m)] && (r == NoMem ==> first == i.allowed))
       || (after == before + [Call(b, first, NoMem, b, m), Call(b, i.allowed, r, b, n)] && first != i.allowed)
  }

  lemma TriesAsk(info: map<Bo, Info>, b: Bo, limit: nat, before: seq<Call>, after: seq<Call>, r: Ret)
    requires b in info && Tries(info[b], b, limit, before, after, r)
    ensures Asked(info, b, limit, before, after) && Answered(b, r, before, after)
  {
    assert after[|after| - 1].bo == b && after[|after| - 1].ret == r;
  }

  lemma AnsweredLater(b: Bo, r: Ret, c0: seq<Call>, c1: seq<Call>, c2: seq<Call>)
    requires c0 <= c1 <= c2 && (Answered(b, r, c1, c2) || Answered(b, r, c0, c1))
    ensures Answered(b, r, c0, c2)
  {
    if Answered(b, r, c1, c2) {
      var k :| |c1| <= k < |c2| && c2[k].bo == c2[k].target == b && c2[k].ret == r;
      assert |c0| <= k;
    } else {
      var k :| |c0| <= k < |c1| && c1[k].bo == c1[k].target == b && c1[k].ret == r;
      assert c2[k] == c1[k];
    }
  }

  /** `after` adds to `before` a call that validates `b` and returned `r`. */
  ghost predicate Answered(b: Bo, r: Ret, before: seq<Call>, after: seq<Call>) {
    exists k :: |before| <= k < |after| && after[k].bo == after[k].target == b && after[k].ret == r
  }

  /** Two of the calls that `after` adds placed `b`. */
  ghost predicate PlacedTwice(b: Bo, before: seq<Call>, after: seq<Call>) {
    exists m :: |before| <= m <= |after| && Answered(b, Ok, before, after[..m]) && Answered(b, Ok, after[..m], after)
  }

  /** A new try for `b`: while the allowance lasts for its preferred domains, and otherwise for the allowed ones. */
  predicate NewTry(i: Info, b: Bo, limit: nat, c: Call) {
    c.bo == b && c.domains == if c.moved < limit then i.preferred else i.allowed
  }

  /** While `b` is validated, call `d` comes right after call `c`. A call for the preferred domains that finds no memory
      is repeated for the allowed ones; if those are full something else is evicted; and then `b` is tried again. */
  predicate Follows(i: Info, b: Bo, limit: nat, c: Call, d: Call) {
    if c.bo != b then c.ret == Ok && NewTry(i, b, limit, d)
    else c.ret == NoMem && if c.domains == i.allowed then d.bo != b else d.bo == b && d.domains == i.allowed
  }

  ghost predicate InTurn(i: Info, b: Bo, limit: nat, before: seq<Call>, after: seq<Call>) {
    && before <= after && (|before| < |after| ==> NewTry(i, b, limit, after[|before|]))
    && forall k :: |before| < k < |after| ==> Follows(i, b, limit, after[k - 1], after[k])
  }

  /** The last call added tried `b` and returned `r`; out of memory, it tried all allowed domains. */
  ghost predicate Tried(i: Info, b: Bo, before: seq<Call>, after: seq<Call>, r: Ret) {
    && |before| < |after|
    && var c := after[|after| - 1]; c == Call(b, c.domains, r, b, c.moved) && (r == NoMem ==> c.domains == i.allowed)
  }

  /** The last call added, if any, evicted something. */
  ghost predicate MayTry(b: Bo, before: seq<Call>, after: seq<Call>) {
    |before| < |after| ==> after[|after| - 1].bo != b && after[|after| - 1].ret == Ok
  }

  lemma TriesInTurn(i: Info, b: Bo, limit: nat, c0: seq<Call>, c1: seq<Call>, c2: seq<Call>, r: Ret)
    requires InTurn(i, b, limit, c0, c1) && MayTry(b, c0, c1) && Tries(i, b, limit, c1, c2, r)
    ensures InTurn(i, b, limit, c0, c2) && Tried(i, b, c0, c2, r)
  {
    forall k | |c0| < k < |c2|
      ensures Follows(i, b, limit, c2[k - 1], c2[k])
    {
      if k < |c1| { assert c2[k - 1] == c1[k - 1] && c2[k] == c1[k]; }
    }
  }

  lemma EvictionInTurn(i: Info, b: Bo, limit: nat, c0: seq<Call>, c1: seq<Call>, c: Call)
    requires InTurn(i, b, limit, c0, c1) && Tried(i, b, c0, c1, NoMem) && c.bo != b
    ensures InTurn(i, b, limit, c0, c1 + [c])
  {
    var c2 := c1 + [c];
    forall k | |c0| < k < |c2|
      ensures Follows(i, b, limit, c2[k - 1], c2[k])
    {
      if k < |c1| { assert c2[k - 1] == c1[k - 1] && c2[k] == c1[k]; }
    }
  }

  /** All calls of a submission serve a buffer of its list, which is validated against its preferred domains only while
      the allowance lasts; with none, always against its allowed domains. */
  ghost predicate Submission(info: map<Bo, Info>, list: seq<Bo>, limit: nat, before: seq<Call>, after: seq<Call>) {
    && before <= after
    && forall k :: |before| <= k < |after| ==> Served(info, list, limit, after[k])
  }

  predicate Served(info: map<Bo, Info>, list: seq<Bo>, limit: nat, c: Call) {
    c.target in list && c.target in info && AskedOne(info, c.target, limit, c)
  }

  lemma SubmissionAsked(info: map<Bo, Info>, list: seq<Bo>, b: Bo, limit: nat,
                        c0: seq<Call>, c1: seq<Call>, c2: seq<Call>)
    requires b in info && b in list && Submission(info, list, limit, c0, c1) && Asked(info, b, limit, c1, c2)
    ensures Submission(info, list, limit, c0, c2)
  {
    forall k | |c0| <= k < |c2|
      ensures Served(info, list, limit, c2[k])
    {
      if k < |c1| { assert c2[k] == c1[k]; } else { assert AskedOne(info, b, limit, c2[k]); }
    }
  }

  /** The list is permuted, and only its buffers have moved. */
  ghost predicate Kept(list0: seq<Bo>, mem0: map<Bo, Domain>, list: seq<Bo>, mem: map<Bo, Domain>) {
    && multiset(list) == multiset(list0)
    && (forall b :: b in list <==> b in list0)
    && mem.Keys == mem0.Keys
    && forall b :: b in mem && b !in list0 ==> mem[b] == mem0[b]
  }

  lemma KeptSettled(info: map<Bo, Info>, target: Bo, list0: seq<Bo>, mem0: map<Bo, Domain>,
                    list1: seq<Bo>, mem1: map<Bo, Domain>, list2: seq<Bo>, mem2: map<Bo, Domain>)
    requires target in info && target in list1
    requires Kept(list0, mem0, list1, mem1) && Settled(info, target, list1, mem1, list2, mem2)
    ensures Kept(list0, mem0, list2, mem2)
  {
  }

  lemma StartOfList(info: map<Bo, Info>, list: seq<Bo>, mem: map<Bo, Domain>)
    requires Distinct(list)
    ensures Progress(info, list, mem, if list == [] then Head else At(list[0]))
  {
    if list != [] {
      IndexUnique(list, 0);
      assert list == [list[0]] + list[1..];
    }
  }

  // ---------------------------------------------------------------------------------------------
  // The search for something to evict

  /** `b` is in a domain that `target` may use and is allowed somewhere else. */
  predicate Movable(info: map<Bo, Info>, mem: map<Bo, Domain>, target: Bo, b: Bo)
    requires target in info && b in info && b in mem
  {
    mem[b] in info[target].allowed && info[b].allowed - info[target].allowed != {}
  }

  /** Where the backward search from `j` stops: at `target`, at a movable entry, or (-1) at the list head. */
  function Scan(info: map<Bo, Info>, list: seq<Bo>, mem: map<Bo, Domain>, target: Bo, j: int): (r: int)
    requires target in info && -1 <= j < |list| && forall b :: b in list ==> b in info && b in mem
    ensures -1 <= r <= j
    ensures r >= 0 ==> list[r] == target || Movable(info, mem, target, list[r])
    ensures forall k :: r < k <= j ==> list[k] != target && !Movable(info, mem, target, list[k])
    decreases j
  {
    if j < 0 || list[j] == target || Movable(info, mem, target, list[j]) then j
    else Scan(info, list, mem, target, j - 1)
  }

  /** The search from `j` stops at no pinned entry other than `target`'s. */
  ghost predicate SparesPinned(info: map<Bo, Info>, list: seq<Bo>, mem: map<Bo, Domain>, target: Bo, j: int)
    requires target in info && -1 <= j < |list| && forall b :: b in list ==> b in info && b in mem
  {
    var r := Scan(info, list, mem, target, j);
    r >= 0 && list[r] != target ==> !info[list[r]].pinned
  }

  /** The search does not look at pin counts: wherever it starts, pinned entries are spared exactly if no pinned
      entry is movable. */
  lemma PinnedSparedIff(info: map<Bo, Info>, list: seq<Bo>, mem: map<Bo, Domain>, target: Bo)
    requires target in info && forall b :: b in list ==> b in info && b in mem
    ensures (forall j :: -1 <= j < |list| ==> SparesPinned(info, list, mem, target, j))
       <==> (forall k :: 0 <= k < |list| && list[k] != target && info[list[k]].pinned ==>
              !Movable(info, mem, target, list[k]))
  {
    if forall j :: -1 <= j < |list| ==> SparesPinned(info, list, mem, target, j) {
      forall k | 0 <= k < |list| && list[k] != target && info[list[k]].pinned
        ensures !Movable(info, mem, target, list[k])
      {
        assert SparesPinned(info, list, mem, target, k);
      }
    }
  }

  /** A pinned buffer in VRAM is picked to make room for a buffer that must go there. */
  lemma PinnedPicked()
    ensures var info := map[0 := Info(false, {VRAM}, {VRAM}, false), 1 := Info(true, {VRAM}, {VRAM, GTT}, false)];
      Scan(info, [1], map[0 := CPU, 1 := VRAM], 0, 0) == 0
  {
    assert GTT in {VRAM, GTT} - {VRAM};
  }

  /** The search never starts again from the end: on its way for buffer 0 it passes buffer 2, which then is not found
      for buffer 1 although it could make room. */
  lemma PassedNotTriedAgain()
    ensures var info := map[0 := Info(false, {GTT}, {GTT}, false), 1 := Info(false, {VRAM}, {VRAM}, false),
                            2 := Info(false, {VRAM}, {VRAM, GTT}, false)];
      var mem := map[0 := CPU, 1 := CPU, 2 := VRAM];
      && Scan(info, [0, 1, 2], mem, 0, 2) == 0
      && Scan(info, [0, 1, 2], mem, 1, 0) == -1
      && mem[2] in info[1].allowed && !(info[2].allowed <= info[1].allowed)
  {
    assert GTT in {VRAM, GTT} && GTT !in {VRAM};
  }

  /** User memory of another process is refused when the walk reaches it. Buffer 1, which is evicted for buffer 0, goes
      to the front and is not reached. */
  lemma ForeignNotReached()
    ensures var info := map[0 := Info(false, {CPU}, {CPU}, false), 1 := Info(false, {GTT}, {GTT}, false)];
      var mem := map[0 := VRAM, 1 := CPU];
      && Scan(info, [0, 1], mem, 0, 1) == 1
      && Evicts(info, [0, 1], mem, 0, 1, [1, 0], mem[1 := GTT])
      && NextCursor([1, 0], 0) == Head
  {
    assert GTT in {GTT} - {CPU};
    assert [1] + [0] + [] == MoveToFront([0, 1], 1);
    assert Distinct([1, 0]);
    IndexUnique([1, 0], 1);
  }

  function CursorAt(list: seq<Bo>, j: int): Cursor
    requires -1 <= j < |list|
  {
    if j < 0 then Head else At(list[j])
  }

  function Position(list: seq<Bo>, c: Cursor): (j: int)
    requires c.At? ==> c.bo in list
    ensures -1 <= j < |list|
  {
    if c.At? then IndexOf(list, c.bo) else -1
  }

  // ---------------------------------------------------------------------------------------------
  // What the search has passed

  /** Entries at or before the cursor, which the search has still to look at. */
  function Unsearched(list: seq<Bo>, cur: Cursor): set<Bo>
    requires cur.At? ==> cur.bo in list
  {
    Members(list[..Position(list, cur) + 1])
  }

  /** `x` can make room for `target`: it is in one of the domains of `target` and may go to another. */
  ghost predicate CanHelp(info: map<Bo, Info>, mem: map<Bo, Domain>, target: Bo, x: Bo) {
    && target in info && x in info && x in mem
    && mem[x] in info[target].allowed && !(info[x].allowed <= info[target].allowed)
  }

  ghost predicate Useless(info: map<Bo, Info>, mem: map<Bo, Domain>, target: Bo, x: Bo) {
    target in info && x in info && x in mem && !CanHelp(info, mem, target, x)
  }

  /** What the parser has at some time. */
  datatype View = View(list: seq<Bo>, cur: Cursor, mem: map<Bo, Domain>, calls: seq<Call>) {
    ghost predicate Ok(info: map<Bo, Info>) {
      && Distinct(list) && (cur.At? ==> cur.bo in list)
      && info.Keys == mem.Keys && forall b :: b in list ==> b in info
    }
  }

  /** Between two times the search for room for `target` has passed only entries that cannot make any. */
  ghost predicate Searched(info: map<Bo, Info>, target: Bo, s0: View, s: View)
    requires s0.Ok(info) && s.Ok(info)
  {
    && (s.cur == Null <==> s0.cur == Null) && (s0.cur == Null ==> s.list == s0.list)
    && forall x :: x in Unsearched(s0.list, s0.cur) && x !in Unsearched(s.list, s.cur) ==>
         x != target && Useless(info, s.mem, target, x)
  }

  /** What the search passes cannot make room. */
  lemma ScanPasses(info: map<Bo, Info>, list: seq<Bo>, mem: map<Bo, Domain>, target: Bo, p: int, x: Bo)
    requires target in info && -1 <= p < |list| && forall b :: b in list ==> b in info && b in mem
    requires x in list[..p + 1] && x !in list[..Scan(info, list, mem, target, p) + 1]
    ensures x != target && Useless(info, mem, target, x)
  {
    var k :| 0 <= k <= p && list[k] == x;
    assert k > Scan(info, list, mem, target, p);
    assert !Movable(info, mem, target, x);
    assert forall d :: d in info[x].allowed && d !in info[target].allowed ==>
      d in info[x].allowed - info[target].allowed;
  }

  lemma UnsearchedAt(list: seq<Bo>, j: int)
    requires Distinct(list) && -1 <= j < |list|
    ensures Unsearched(list, CursorAt(list, j)) == Members(list[..j + 1])
  {
    if j >= 0 { IndexUnique(list, j); }
  }

  /** The search stops without an eviction. */
  lemma SearchStops(info: map<Bo, Info>, target: Bo, s: View, s': View)
    requires s.Ok(info) && s'.Ok(info) && target in info && s.cur != Null && s'.list == s.list && s'.mem == s.mem
    requires s'.cur == CursorAt(s.list, Scan(info, s.list, s.mem, target, Position(s.list, s.cur)))
    ensures Searched(info, target, s, s')
  {
    var p := Position(s.list, s.cur);
    UnsearchedAt(s.list, Scan(info, s.list, s.mem, target, p));
    forall x | x in Unsearched(s.list, s.cur) && x !in Unsearched(s'.list, s'.cur)
      ensures x != target && Useless(info, s'.mem, target, x)
    {
      ScanPasses(info, s.list, s.mem, target, p, x);
    }
  }

  /** The search stops at an entry which is then evicted; the cursor goes to the entry before it. */
  lemma SearchEvicts(info: map<Bo, Info>, target: Bo, s: View, i: nat, s': View)
    requires s.Ok(info) && s'.Ok(info) && target in info && s.cur != Null
    requires i == Scan(info, s.list, s.mem, target, Position(s.list, s.cur))
    requires Evicts(info, s.list, s.mem, target, i, s'.list, s'.mem) && s'.cur == CursorAt(s.list, i - 1)
    ensures Searched(info, target, s, s')
  {
    forall x | x in Unsearched(s.list, s.cur) && x !in Unsearched(s'.list, s'.cur)
      ensures x != target && Useless(info, s'.mem, target, x)
    {
      if x in s.list[..i + 1] {
        EvictedIsLast(s.list, i, x);
        assert x == s.list[i];
      } else {
        ScanPasses(info, s.list, s.mem, target, Position(s.list, s.cur), x);
      }
    }
  }

  lemma EvictedIsLast(list: seq<Bo>, i: nat, x: Bo)
    requires Distinct(list) && i < |list| && x in list[..i + 1]
    requires CursorAt(list, i - 1).At? ==> CursorAt(list, i - 1).bo in MoveToFront(list, i)
    requires x !in Unsearched(MoveToFront(list, i), CursorAt(list, i - 1))
    ensures x == list[i]
  {
    var list' := MoveToFront(list, i);
    if i > 0 {
      MoveKeepsDistinct(list, i);
      assert list'[i] == list[i - 1];
      assert list'[..i + 1] == [list[i]] + list[..i];
      UnsearchedAt(list', i);
    }
  }

  lemma SearchedAgain(info: map<Bo, Info>, target: Bo, s0: View, s1: View, s2: View)
    requires s0.Ok(info) && s1.Ok(info) && s2.Ok(info) && target in info
    requires Searched(info, target, s0, s1) && Searched(info, target, s1, s2)
    requires forall x :: x in s1.mem && x in s2.mem && x != target && s2.mem[x] != s1.mem[x] ==>
      s2.mem[x] !in info[target].allowed
    ensures Searched(info, target, s0, s2)
  {
  }

  // ---------------------------------------------------------------------------------------------
  // The loop that validates one buffer

  /** What holds from the start of the loop for `b` to any later time in it. */
  ghost predicate Along(info: map<Bo, Info>, b: Bo, limit: nat, s0: View, s: View)
    requires b in info
  {
    && s0.Ok(info) && s.Ok(info) && Settled(info, b, s0.list, s0.mem, s.list, s.mem)
    && Asked(info, b, limit, s0.calls, s.calls) && InTurn(info[b], b, limit, s0.calls, s.calls)
    && Searched(info, b, s0, s)
  }

  /** The loop gives up: there is no cursor, it is at the end of the search, or the last call is a failed eviction. */
  ghost predicate GivesUp(b: Bo, s: View) {
    s.cur == Null || s.cur == Head || s.cur == At(b) || FailedEviction(b, s.calls)
  }

  ghost predicate FailedEviction(b: Bo, calls: seq<Call>) {
    calls != [] && var c := calls[|calls| - 1]; c.target == b && c.bo != b && c.ret != Ok
  }

  /** The loop has ended with `r`. */
  ghost predicate Ended(info: map<Bo, Info>, b: Bo, s0: View, s: View, r: Ret)
    requires b in info
  {
    && (r == Ok ==> WellPlaced(info, s.mem, b))
    && (info[b].pinned ==> r == Ok && s == s0)
    && (!info[b].pinned ==> Answered(b, r, s0.calls, s.calls))
    && (!info[b].pinned && r != NoMem ==> Tried(info[b], b, s0.calls, s.calls, r))
    && (r == NoMem ==> GivesUp(b, s))
  }

  lemma AlongTry(info: map<Bo, Info>, b: Bo, limit: nat, s0: View, s1: View, s2: View, r: Ret)
    requires b in info && Along(info, b, limit, s0, s1) && MayTry(b, s0.calls, s1.calls)
    requires Tries(info[b], b, limit, s1.calls, s2.calls, r)
    requires s2.list == s1.list && s2.cur == s1.cur && b in s2.mem && s2.mem == s1.mem[b := s2.mem[b]]
    ensures Along(info, b, limit, s0, s2) && Tried(info[b], b, s0.calls, s2.calls, r)
    ensures Answered(b, r, s0.calls, s2.calls)
  {
    SettledTarget(info, b, s0.list, s0.mem, s1.list, s1.mem, s2.mem);
    TriesAsk(info, b, limit, s1.calls, s2.calls, r);
    AskedAgain(info, b, limit, s0.calls, s1.calls, s2.calls);
    AnsweredLater(b, r, s0.calls, s1.calls, s2.calls);
    TriesInTurn(info[b], b, limit, s0.calls, s1.calls, s2.calls, r);
  }

  /** The effect of one call of `amdgpu_cs_try_evict` for `b`, whose search stops at `at`. */
  ghost predicate EvictionTried(info: map<Bo, Info>, b: Bo, s: View, at: int, s': View, ok: bool)
    requires b in info && s.Ok(info)
  {
    && at == Scan(info, s.list, s.mem, b, Position(s.list, s.cur))
    && (!ok ==> s'.list == s.list && s'.mem == s.mem && s'.cur == if s.cur == Null then Null else CursorAt(s.list, at))
    && (ok ==> at >= 0 && s.cur != Null && s'.cur == CursorAt(s.list, at - 1)
               && Evicts(info, s.list, s.mem, b, at, s'.list, s'.mem))
    && if at < 0 || s.list[at] == b then !ok && s'.calls == s.calls
       else
         var c := s.list[at];
         && |s'.calls| == |s.calls| + 1
         && var ret := s'.calls[|s.calls|].ret;
            && s'.calls == s.calls + [Call(c, info[c].allowed - info[b].allowed, ret, b, s'.calls[|s.calls|].moved)]
            && (ok <==> ret == Ok)
  }

  lemma AlongEvict(info: map<Bo, Info>, b: Bo, limit: nat, s0: View, s1: View, at: int, s2: View, ok: bool)
    requires b in info && Along(info, b, limit, s0, s1) && Tried(info[b], b, s0.calls, s1.calls, NoMem)
    requires s2.Ok(info) && EvictionTried(info, b, s1, at, s2, ok)
    ensures Along(info, b, limit, s0, s2) && Answered(b, NoMem, s0.calls, s2.calls)
    ensures ok ==> MayTry(b, s0.calls, s2.calls)
    ensures ok ==> Resident(s2.list, s2.mem, info[b].allowed) < Resident(s1.list, s1.mem, info[b].allowed)
    ensures !ok ==> GivesUp(b, s2)
  {
    TriedAnswers(info, b, s0.calls, s1.calls, NoMem);
    AnsweredLater(b, NoMem, s0.calls, s1.calls, s2.calls);
    if ok {
      EvictionShrinks(info, s1.list, s1.mem, b, at, s2.list, s2.mem);
      SettledEvicts(info, b, s0.list, s0.mem, s1.list, s1.mem, at, s2.list, s2.mem);
      SearchEvicts(info, b, s1, at, s2);
    } else if s1.cur != Null {
      SearchStops(info, b, s1, s2);
    }
    SearchedAgain(info, b, s0, s1, s2);
    EvictionCalls(info, b, limit, s0, s1, at, s2, ok);
  }

  lemma EvictionCalls(info: map<Bo, Info>, b: Bo, limit: nat, s0: View, s1: View, at: int, s2: View, ok: bool)
    requires b in info && s1.Ok(info) && EvictionTried(info, b, s1, at, s2, ok)
    requires Asked(info, b, limit, s0.calls, s1.calls) && InTurn(info[b], b, limit, s0.calls, s1.calls)
    requires Tried(info[b], b, s0.calls, s1.calls, NoMem)
    ensures Asked(info, b, limit, s0.calls, s2.calls) && InTurn(info[b], b, limit, s0.calls, s2.calls)
    ensures ok ==> MayTry(b, s0.calls, s2.calls)
    ensures !ok ==> GivesUp(b, s2)
  {
    if at >= 0 && s1.list[at] != b {
      var c := s2.calls[|s1.calls|];
      assert s2.calls == s1.calls + [c];
      EvictionInTurn(info[b], b, limit, s0.calls, s1.calls, c);
      AskedAgain(info, b, limit, s0.calls, s1.calls, s2.calls);
    }
  }

  /** The effect of `amdgpu_cs_validate`: the loop, and after its first `n` calls a second validation for a shadow. */
  ghost predicate Validated(info: map<Bo, Info>, b: Bo, limit: nat, s: View, s': View, r: Ret, n: nat)
    requires b in info && s.Ok(info) && s'.Ok(info)
  {
    && Settled(info, b, s.list, s.mem, s'.list, s'.mem) && Searched(info, b, s, s')
    && Asked(info, b, limit, s.calls, s'.calls)
    && (r == Ok ==> WellPlaced(info, s'.mem, b))
    && (info[b].pinned ==> r == Ok && s' == s)
    && (!info[b].pinned ==> Answered(b, r, s.calls, s'.calls))
    && |s.calls| <= n <= |s'.calls| && InTurn(info[b], b, limit, s.calls, s'.calls[..n])
    && (n < |s'.calls| ==>
          && info[b].shadow && !info[b].pinned && Tried(info[b], b, s.calls, s'.calls[..n], Ok)
          && Tries(info[b], b, limit, s'.calls[..n], s'.calls, r))
    && (n == |s'.calls| ==> (r == NoMem ==> GivesUp(b, s')) && (r == Ok ==> !info[b].shadow || info[b].pinned))
  }

  lemma LoopIsAll(info: map<Bo, Info>, b: Bo, limit: nat, s: View, s': View, r: Ret)
    requires b in info && Along(info, b, limit, s, s') && Ended(info, b, s, s', r)
    requires r == Ok ==> !info[b].shadow || info[b].pinned
    ensures Validated(info, b, limit, s, s', r, |s'.calls|)
  {
    assert s'.calls[..|s'.calls|] == s'.calls;
  }

  lemma ThenAgain(info: map<Bo, Info>, b: Bo, limit: nat, s: View, s1: View, s2: View, r: Ret)
    requires b in info && Along(info, b, limit, s, s1) && Ended(info, b, s, s1, Ok) && s2.Ok(info)
    requires info[b].shadow && !info[b].pinned && Tries(info[b], b, limit, s1.calls, s2.calls, r)
    requires s2.list == s1.list && s2.cur == s1.cur && b in s2.mem && s2.mem == s1.mem[b := s2.mem[b]]
    requires r == Ok ==> WellPlaced(info, s2.mem, b)
    ensures Validated(info, b, limit, s, s2, r, |s1.calls|)
  {
    assert s2.calls[..|s1.calls|] == s1.calls;
    SettledTarget(info, b, s.list, s.mem, s1.list, s1.mem, s2.mem);
    TriesAsk(info, b, limit, s1.calls, s2.calls, r);
    AnsweredLater(b, r, s.calls, s1.calls, s2.calls);
    AskedAgain(info, b, limit, s.calls, s1.calls, s2.calls);
  }

  // ---------------------------------------------------------------------------------------------
  // The walk over the list, with evictions

  /** What holds during the walk: `todo` has still to be visited, and is where it was at first. An entry of it that the
      search has passed could not make room for some entry visited. An entry that the walk is done with is well placed;
      if it is foreign, it was able to make room for another. */
  ghost predicate Walking(info: map<Bo, Info>, foreign: set<Bo>, limit: nat, s0: View, s: View, todo: set<Bo>) {
    && s0.Ok(info) && s.Ok(info) && Kept(s0.list, s0.mem, s.list, s.mem)
    && Submission(info, s0.list, limit, s0.calls, s.calls)
    && (forall x :: x in s.list && x !in todo ==> WellPlaced(info, s.mem, x))
    && (forall x :: x in todo ==> x in s.mem && x in s0.mem && s.mem[x] == s0.mem[x])
    && (forall x :: x in todo && x in Unsearched(s0.list, s0.cur) && x !in Unsearched(s.list, s.cur) ==>
          PassedFor(info, s0.mem, Members(s.list) - todo, x))
    && forall x :: x in s.list && x !in todo && x in foreign ==> MayBeSkipped(info, s0.mem, s.list, x)
  }

  /** `x` could make room for an entry that is not pinned. */
  ghost predicate MayBeSkipped(info: map<Bo, Info>, mem: map<Bo, Domain>, list: seq<Bo>, x: Bo) {
    exists t :: t in list && t in info && !info[t].pinned && CanHelp(info, mem, t, x)
  }

  ghost predicate PassedFor(info: map<Bo, Info>, mem: map<Bo, Domain>, targets: set<Bo>, x: Bo) {
    exists t :: t in targets && Useless(info, mem, t, x)
  }

  /** The walk ends at `b` for lack of memory: after a failed eviction; or, for a buffer with a shadow, after it was
      placed once; or because each entry that the walk has not reached could not make room for `b` or one before it. */
  ghost predicate OutOfRoom(info: map<Bo, Info>, b: Bo, s0: View, s: View)
    requires s0.Ok(info) && b in s.list && b in info
  {
    || FailedEviction(b, s.calls)
    || (info[b].shadow && Answered(b, Ok, s0.calls, s.calls))
    || forall x :: x in Behind(s.list, b) && x in Unsearched(s0.list, s0.cur) ==>
         PassedFor(info, s0.mem, Members(s.list) - Behind(s.list, b), x)
  }

  /** The walk fails at `b`. */
  ghost predicate Refused(info: map<Bo, Info>, foreign: set<Bo>, b: Bo, s0: View, s: View, r: Ret)
    requires s0.Ok(info) && s.Ok(info) && b in s.list
  {
    || (b in foreign && r == Fail(-EPERM))
    || (Answered(b, r, s0.calls, s.calls) && (r == NoMem ==> OutOfRoom(info, b, s0, s)))
  }

  lemma WalkStarts(info: map<Bo, Info>, foreign: set<Bo>, limit: nat, s: View)
    requires s.Ok(info)
    ensures Walking(info, foreign, limit, s, s, ToVisit(s.list, if s.list == [] then Head else At(s.list[0])))
  {
    StartOfList(info, s.list, s.mem);
    if s.list != [] {
      IndexUnique(s.list, 0);
      assert s.list == [s.list[0]] + s.list[1..];
    }
  }

  /** `s1` is at the visit of `b`, with the cursor dropped if it was there; `s2` is after its validation. */
  lemma PassedNext(info: map<Bo, Info>, foreign: set<Bo>, limit: nat, b: Bo, s0: View, s: View, s1: View, s2: View,
                   x: Bo)
    requires b in s.list && Walking(info, foreign, limit, s0, s, ToVisit(s.list, At(b)))
    requires s1 == s.(cur := if s.cur == At(b) then Null else s.cur) && s1.Ok(info) && s2.Ok(info)
    requires Settled(info, b, s1.list, s1.mem, s2.list, s2.mem) && Searched(info, b, s1, s2)
    requires x in Behind(s2.list, b) && x in Unsearched(s0.list, s0.cur) && x !in Unsearched(s2.list, s2.cur)
    ensures PassedFor(info, s0.mem, Members(s2.list) - Behind(s2.list, b), x)
  {
    TargetNotBehind(s2.list, b);
    if x in Unsearched(s.list, s.cur) {
      if s.cur == At(b) { BehindNotBefore(s.list, b, x); }
      assert Useless(info, s2.mem, b, x);
      assert s2.mem[x] == s0.mem[x];
      assert b in Members(s2.list) - Behind(s2.list, b) && Useless(info, s0.mem, b, x);
    } else {
      var t :| t in Members(s.list) - ToVisit(s.list, At(b)) && Useless(info, s0.mem, t, x);
      assert t in Members(s2.list) - Behind(s2.list, b);
    }
  }

  lemma BehindNotBefore(list: seq<Bo>, b: Bo, x: Bo)
    requires Distinct(list) && b in list && x in Behind(list, b)
    ensures x !in Unsearched(list, At(b))
  {
  }

  /** A validation of `b` keeps what holds during the walk, and `b` is then done with. */
  lemma WalkNext(info: map<Bo, Info>, foreign: set<Bo>, limit: nat, b: Bo, s0: View, s: View, s1: View, s2: View)
    requires b in s.list && b !in foreign && Walking(info, foreign, limit, s0, s, ToVisit(s.list, At(b)))
    requires s1 == s.(cur := if s.cur == At(b) then Null else s.cur) && s1.Ok(info) && s2.Ok(info)
    requires Settled(info, b, s1.list, s1.mem, s2.list, s2.mem) && Searched(info, b, s1, s2)
    requires WellPlaced(info, s2.mem, b) && Submission(info, s0.list, limit, s0.calls, s2.calls)
    requires info[b].pinned ==> s2 == s1
    ensures Walking(info, foreign, limit, s0, s2, Behind(s2.list, b))
  {
    KeptSettled(info, b, s0.list, s0.mem, s.list, s.mem, s2.list, s2.mem);
    ProgressNext(info, b, s.list, s.mem, s2.list, s2.mem);
    NextToVisit(s2.list, b);
    forall x | x in Behind(s2.list, b) && x in Unsearched(s0.list, s0.cur) && x !in Unsearched(s2.list, s2.cur)
      ensures PassedFor(info, s0.mem, Members(s2.list) - Behind(s2.list, b), x)
    {
      PassedNext(info, foreign, limit, b, s0, s, s1, s2, x);
    }
    forall x | x in s2.list && x !in Behind(s2.list, b) && x in foreign
      ensures MayBeSkipped(info, s0.mem, s2.list, x)
    {
      ForeignNext(info, foreign, limit, b, s0, s, s2, x);
    }
  }

  lemma ForeignNext(info: map<Bo, Info>, foreign: set<Bo>, limit: nat, b: Bo, s0: View, s: View, s2: View, x: Bo)
    requires b in s.list && b !in foreign && Walking(info, foreign, limit, s0, s, ToVisit(s.list, At(b)))
    requires Settled(info, b, s.list, s.mem, s2.list, s2.mem)
    requires x in s2.list && x !in Behind(s2.list, b) && x in foreign && (info[b].pinned ==> s2.list == s.list)
    ensures MayBeSkipped(info, s0.mem, s2.list, x)
  {
    if x in Behind(s.list, b) {
      assert MadeRoom(info, b, s.mem, s2.mem, x) && s.mem[x] == s0.mem[x];
      assert b in s2.list && CanHelp(info, s0.mem, b, x);
    } else {
      var t :| t in s.list && t in info && !info[t].pinned && CanHelp(info, s0.mem, t, x);
      assert t in s2.list;
    }
  }

  lemma WalkEnds(info: map<Bo, Info>, foreign: set<Bo>, limit: nat, b: Bo, s0: View, s: View, s1: View, s2: View)
    requires b in s.list && Walking(info, foreign, limit, s0, s, ToVisit(s.list, At(b)))
    requires s1 == s.(cur := if s.cur == At(b) then Null else s.cur) && s1.Ok(info) && s2.Ok(info)
    requires Settled(info, b, s1.list, s1.mem, s2.list, s2.mem) && Searched(info, b, s1, s2) && GivesUp(b, s2)
    ensures b in s2.list && OutOfRoom(info, b, s0, s2)
  {
    if !FailedEviction(b, s2.calls) {
      forall x | x in Behind(s2.list, b) && x in Unsearched(s0.list, s0.cur)
        ensures PassedFor(info, s0.mem, Members(s2.list) - Behind(s2.list, b), x)
      {
        BehindNotBefore(s2.list, b, x);
        PassedNext(info, foreign, limit, b, s0, s, s1, s2, x);
      }
    }
  }

  /** The effect of the visit of `b`: the cursor is dropped if it is there, and `b` is validated. */
  lemma VisitNext(info: map<Bo, Info>, foreign: set<Bo>, limit: nat, b: Bo, s0: View, s: View, s1: View, s2: View,
                  r: Ret, n: nat)
    requires b in s.list && b !in foreign && Walking(info, foreign, limit, s0, s, ToVisit(s.list, At(b)))
    requires s1 == s.(cur := if s.cur == At(b) then Null else s.cur) && s1.Ok(info) && s2.Ok(info)
    requires Validated(info, b, limit, s1, s2, r, n)
    ensures b in s2.list && Kept(s0.list, s0.mem, s2.list, s2.mem)
    ensures Submission(info, s0.list, limit, s0.calls, s2.calls)
    ensures r != Ok ==> Answered(b, r, s0.calls, s2.calls) && (r == NoMem ==> OutOfRoom(info, b, s0, s2))
    ensures r == Ok ==> var cur := NextCursor(s2.list, b);
      && (cur.At? ==> cur.bo in s2.list) && Walking(info, foreign, limit, s0, s2, ToVisit(s2.list, cur))
      && |ToVisit(s2.list, cur)| < |ToVisit(s.list, At(b))|
  {
    KeptSettled(info, b, s0.list, s0.mem, s.list, s.mem, s2.list, s2.mem);
    SubmissionAsked(info, s0.list, b, limit, s0.calls, s.calls, s2.calls);
    if r == Ok {
      WalkNext(info, foreign, limit, b, s0, s, s1, s2);
      NextToVisit(s2.list, b);
      VisitsShrink(s.list, b, Behind(s2.list, b));
    } else {
      AnsweredLater(b, r, s0.calls, s.calls, s2.calls);
      if n == |s2.calls| {
        if r == NoMem { WalkEnds(info, foreign, limit, b, s0, s, s1, s2); }
      } else {
        TriedAnswers(info, b, s.calls, s2.calls[..n], Ok);
        AnsweredLater(b, Ok, s0.calls, s.calls, s2.calls[..n]);
        AnsweredLater(b, Ok, s0.calls, s2.calls[..n], s2.calls);
      }
    }
  }

  lemma TriedAnswers(info: map<Bo, Info>, b: Bo, before: seq<Call>, after: seq<Call>, r: Ret)
    requires b in info && Tried(info[b], b, before, after, r)
    ensures Answered(b, r, before, after)
  {
    assert after[|after| - 1].bo == b;
  }

  lemma ShadowPlacedTwice(info: map<Bo, Info>, b: Bo, limit: nat, s: View, s': View, n: nat)
    requires b in info && s.Ok(info) && s'.Ok(info) && Validated(info, b, limit, s, s', Ok, n)
    requires info[b].shadow && !info[b].pinned
    ensures PlacedTwice(b, s.calls, s'.calls)
  {
    TriedAnswers(info, b, s.calls, s'.calls[..n], Ok);
    TriesAsk(info, b, limit, s'.calls[..n], s'.calls, Ok);
  }

  // ---------------------------------------------------------------------------------------------
  // Which entries the walk may never reach

  ghost predicate Evicted(info: map<Bo, Info>, b: Bo, s: View, s': View)
    requires b in info
  {
    s.Ok(info) && s'.Ok(info) && exists at :: EvictionTried(info, b, s, at, s', true)
  }

  /** Evictions for `b`, one after the other, leaving out the tries for `b` in between. */
  ghost predicate Evictions(info: map<Bo, Info>, b: Bo, run: seq<View>)
    requires b in info
  {
    run != [] && forall i :: 0 < i < |run| ==> Evicted(info, b, run[i - 1], run[i])
  }

  lemma FirstEviction(info: map<Bo, Info>, b: Bo, s: View, run: seq<View>)
    requires b in info && Evictions(info, b, run) && Evicted(info, b, s, run[0])
    ensures Evictions(info, b, [s] + run)
  {
    var run' := [s] + run;
    forall i | 0 < i < |run'|
      ensures Evicted(info, b, run'[i - 1], run'[i])
    {
      if i > 1 { assert run'[i - 1] == run[i - 2] && run'[i] == run[i - 1]; }
    }
  }

  /** The eviction of the entry where the search stops. */
  lemma CanEvict(info: map<Bo, Info>, b: Bo, s: View) returns (at: nat, s': View)
    requires b in info && s.Ok(info) && s.cur.At?
    requires var j := Scan(info, s.list, s.mem, b, Position(s.list, s.cur)); j >= 0 && s.list[j] != b
    ensures at == Scan(info, s.list, s.mem, b, Position(s.list, s.cur))
    ensures EvictionTried(info, b, s, at, s', true) && s'.Ok(info)
  {
    at := Scan(info, s.list, s.mem, b, Position(s.list, s.cur));
    var c := s.list[at];
    assert Movable(info, s.mem, b, c);
    var d :| d in info[c].allowed - info[b].allowed;
    MoveIsPermutation(s.list, at);
    s' := View(MoveToFront(s.list, at), CursorAt(s.list, at - 1), s.mem[c := d],
      s.calls + [Call(c, info[c].allowed - info[b].allowed, Ok, b, 0)]);
    assert s'.mem.Keys == s.mem.Keys;
    assert at > 0 ==> s.list[at - 1] in s'.list;
  }

  /** An entry behind `b` that the search will find. */
  ghost predicate Within(info: map<Bo, Info>, b: Bo, s: View, x: Bo) {
    && s.Ok(info) && b in s.list && x in Behind(s.list, b) && CanHelp(info, s.mem, b, x)
    && s.cur.At? && x in s.list && IndexOf(s.list, x) <= IndexOf(s.list, s.cur.bo)
  }

  lemma ScanReaches(info: map<Bo, Info>, b: Bo, s: View, x: Bo)
    requires b in info && Within(info, b, s, x)
    ensures var j := Scan(info, s.list, s.mem, b, Position(s.list, s.cur));
      IndexOf(s.list, x) <= j <= Position(s.list, s.cur) && s.list[j] != b
  {
    var k := IndexOf(s.list, x);
    var d :| d in info[x].allowed && d !in info[b].allowed;
    assert d in info[x].allowed - info[b].allowed;
    assert Movable(info, s.mem, b, s.list[k]);
    assert k > IndexOf(s.list, b);
  }

  lemma {:induction false} GetsTakenOut(info: map<Bo, Info>, b: Bo, s: View, x: Bo) returns (run: seq<View>)
    requires b in info && Within(info, b, s, x)
    ensures Evictions(info, b, run) && run[0] == s && TakenOut(b, run[|run| - 1], x)
    decreases Position(s.list, s.cur) - IndexOf(s.list, x)
  {
    ScanReaches(info, b, s, x);
    var at, s1 := CanEvict(info, b, s);
    MoveBehind(s.list, at, b);
    assert Evicted(info, b, s, s1);
    if s.list[at] == x {
      run := [s1];
    } else {
      StillWithin(info, b, s, at, s1, x);
      run := GetsTakenOut(info, b, s1, x);
    }
    FirstEviction(info, b, s, run);
    run := [s] + run;
  }

  ghost predicate TakenOut(b: Bo, s: View, x: Bo) {
    b in s.list && x !in Behind(s.list, b)
  }

  lemma StillWithin(info: map<Bo, Info>, b: Bo, s: View, at: nat, s1: View, x: Bo)
    requires b in info && Within(info, b, s, x) && EvictionTried(info, b, s, at, s1, true) && s1.Ok(info)
    requires IndexOf(s.list, x) <= at && s.list[at] != x
    ensures Within(info, b, s1, x)
    ensures Position(s1.list, s1.cur) - IndexOf(s1.list, x) < Position(s.list, s.cur) - IndexOf(s.list, x)
  {
    MoveBehind(s.list, at, b);
    MovePosition(s.list, at, x);
    MovePosition(s.list, at, s.list[at - 1]);
    IndexUnique(s.list, at - 1);
  }

  /** If `x` is behind `b` in `s` and either not in `s1` or able to help there, it is able to help in `s`. */
  ghost predicate HelpsBefore(info: map<Bo, Info>, b: Bo, s: View, s1: View, x: Bo) {
    b in s.list && x in Behind(s.list, b) ==>
      && b in s1.list
      && (x !in Behind(s1.list, b) || CanHelp(info, s1.mem, b, x) ==> CanHelp(info, s.mem, b, x))
  }

  lemma OneEviction(info: map<Bo, Info>, b: Bo, s: View, s1: View, x: Bo)
    requires b in info && Evicted(info, b, s, s1)
    ensures HelpsBefore(info, b, s, s1, x)
  {
    var at :| EvictionTried(info, b, s, at, s1, true);
    if b in s.list { MoveBehind(s.list, at, b); }
  }

  lemma {:induction false} HelpsFirst(info: map<Bo, Info>, b: Bo, run: seq<View>, x: Bo)
    requires run != [] && b in run[0].list && x in Behind(run[0].list, b) && TakenOut(b, run[|run| - 1], x)
    requires forall i :: 0 < i < |run| ==> HelpsBefore(info, b, run[i - 1], run[i], x)
    ensures CanHelp(info, run[0].mem, b, x)
    decreases |run|
  {
    if |run| > 1 {
      assert HelpsBefore(info, b, run[0], run[1], x);
      if x in Behind(run[1].list, b) { HelpsFirst(info, b, run[1..], x); }
    }
  }

  lemma TakenOutHelps(info: map<Bo, Info>, b: Bo, run: seq<View>, x: Bo)
    requires b in info && Evictions(info, b, run) && b in run[0].list && x in Behind(run[0].list, b)
    requires TakenOut(b, run[|run| - 1], x)
    ensures CanHelp(info, run[0].mem, b, x)
  {
    forall i | 0 < i < |run|
      ensures HelpsBefore(info, b, run[i - 1], run[i], x)
    {
      OneEviction(info, b, run[i - 1], run[i], x);
    }
    HelpsFirst(info, b, run, x);
  }

  ghost predicate CanBeTakenOut(info: map<Bo, Info>, b: Bo, s: View, x: Bo)
    requires b in info
  {
    exists run :: Evictions(info, b, run) && run[0] == s && TakenOut(b, run[|run| - 1], x)
  }

  /** While `b` is validated, an entry behind it which the search has not passed can be taken out of the rest of the
      walk exactly if it can make room for `b`. */
  lemma TakenOutIff(info: map<Bo, Info>, b: Bo, s: View, x: Bo)
    requires b in info && s.Ok(info) && b in s.list && x in Behind(s.list, b) && s.cur.At?
    requires IndexOf(s.list, x) <= IndexOf(s.list, s.cur.bo)
    ensures CanBeTakenOut(info, b, s, x) <==> CanHelp(info, s.mem, b, x)
  {
    if CanHelp(info, s.mem, b, x) {
      var run := GetsTakenOut(info, b, s, x);
    }
    if CanBeTakenOut(info, b, s, x) {
      var run :| Evictions(info, b, run) && run[0] == s && TakenOut(b, run[|run| - 1], x);
      TakenOutHelps(info, b, run, x);
    }
  }

  // ---------------------------------------------------------------------------------------------
  // The parser

  class Parser {
    const info: map<Bo, Info>
    const foreign: set<Bo>                     // user memory of another process
    const threshold: nat                       // bytes_moved_threshold
    var list: seq<Bo>                          // p->validated
    var evictable: Cursor
    var mem: map<Bo, Domain>
    var bytesMoved: nat
    var calls: seq<Call>                       // calls of ttm_bo_validate, in order

    ghost predicate Valid()
      reads this
    {
      Now().Ok(info) && forall b :: b in info ==> Good(info[b])
    }

    ghost function Now(): View
      reads this
    {
      View(list, evictable, mem, calls)
    }

    /** The set-up done by `amdgpu_cs_parser_bos` before validation. */
    constructor (info: map<Bo, Info>, foreign: set<Bo>, list: seq<Bo>, mem: map<Bo, Domain>, threshold: nat)
      requires Distinct(list) && (forall b :: b in list ==> b in info) && info.Keys == mem.Keys
      requires forall b :: b in info ==> Good(info[b])
      ensures Valid() && this.info == info && this.foreign == foreign && this.threshold == threshold
      ensures this.list == list && this.mem == mem && bytesMoved == 0 && calls == []
      ensures evictable == if list == [] then Head else At(list[|list| - 1])
    {
      this.info, this.foreign, this.threshold := info, foreign, threshold;
      this.list, this.mem := list, mem;
      bytesMoved, calls := 0, [];
      evictable := if list == [] then Head else At(list[|list| - 1]);
    }

    /** `ttm_bo_validate` after `amdgpu_ttm_placement_from_domain`, with the bytes it reports moved. */
    method TtmValidate(b: Bo, domains: set<Domain>, target: Bo) returns (r: Ret)
      requires b in mem
      modifies this`mem, this`bytesMoved, this`calls
      ensures r == Ok ==> b in mem && mem[b] in Places(domains) && mem == old(mem)[b := mem[b]]
      ensures r != Ok ==> mem == old(mem)
      ensures bytesMoved >= old(bytesMoved) && calls == old(calls) + [Call(b, domains, r, target, old(bytesMoved))]
    {
      var before := bytesMoved;
      var moved: nat :| moved >= 0;
      bytesMoved := bytesMoved + moved;
      r :| r.Ok? || r.NoMem? || r.Fail?;
      if r == Ok {
        var d :| d in Places(domains);
        mem := mem[b := d];
      }
      calls := calls + [Call(b, domains, r, target, before)];
    }

    /** `amdgpu_cs_bo_validate`. */
    method BoValidate(b: Bo) returns (r: Ret)
      requires Valid() && b in info
      modifies this`mem, this`bytesMoved, this`calls
      ensures Valid() && bytesMoved >= old(bytesMoved)
      ensures b in mem && mem == old(mem)[b := mem[b]]
      ensures r != Ok || info[b].pinned ==> mem == old(mem)
      ensures r == Ok ==> WellPlaced(info, mem, b)
      ensures info[b].pinned ==> r == Ok && calls == old(calls)
      ensures !info[b].pinned ==> Tries(info[b], b, threshold, old(calls), calls, r)
      ensures !info[b].pinned ==> calls[|old(calls)|].moved == old(bytesMoved)
    {
      if info[b].pinned {
        return Ok;
      }
      var domain := if bytesMoved < threshold then info[b].preferred else info[b].allowed;
      r := TtmValidate(b, domain, b);
      if r == NoMem && domain != info[b].allowed {
        domain := info[b].allowed;
        r := TtmValidate(b, domain, b);
      }
    }

    /** The backward search of `amdgpu_cs_try_evict`: the cursor stops where the search does. */
    method Search(target: Bo) returns (j: int)
      requires Valid() && target in info && evictable != Null
      modifies this`evictable
      ensures j == Scan(info, list, mem, target, Position(list, old(evictable))) && evictable == CursorAt(list, j)
    {
      j := Position(list, evictable);
      while j >= 0 && list[j] != target
        invariant -1 <= j < |list| && evictable == CursorAt(list, j)
        invariant Scan(info, list, mem, target, j) == Scan(info, list, mem, target, Position(list, old(evictable)))
        decreases j
      {
        var bo := list[j];
        if mem[bo] in info[target].allowed && info[bo].allowed - info[target].allowed != {} {
          return;
        }
        j := j - 1;
        evictable := CursorAt(list, j);
      }
    }

    /** `amdgpu_cs_try_evict`: it evicts exactly if the search stops at a movable entry and TTM moves it. */
    method TryEvict(target: Bo) returns (ok: bool, ghost at: int)
      requires Valid() && target in info
      modifies this`list, this`evictable, this`mem, this`bytesMoved, this`calls
      ensures Valid() && bytesMoved >= old(bytesMoved)
      ensures EvictionTried(info, target, old(Now()), at, Now(), ok)
    {
      at := Scan(info, list, mem, target, Position(list, evictable));
      if evictable == Null {
        return false, at;
      }
      var j := Search(target);
      if j < 0 || list[j] == target {
        return false, at;
      }
      var r := TtmValidate(list[j], info[list[j]].allowed - info[target].allowed, target);
      if r != Ok {
        return false, at;
      }
      MoveIsPermutation(list, j);
      evictable := CursorAt(list, j - 1);
      list := MoveToFront(list, j);
      ok := true;
    }

    /** One call of `amdgpu_cs_bo_validate` in the do-while of `amdgpu_cs_validate`. */
    method TryPlace(b: Bo, ghost s0: View) returns (r: Ret)
      requires Valid() && b in info
      requires Along(info, b, threshold, s0, Now()) && MayTry(b, s0.calls, calls)
      modifies this`mem, this`bytesMoved, this`calls
      ensures Valid() && bytesMoved >= old(bytesMoved) && Along(info, b, threshold, s0, Now())
      ensures if r == Ok then WellPlaced(info, mem, b) else mem == old(mem)
      ensures info[b].pinned ==> r == Ok && Now() == old(Now())
      ensures !info[b].pinned ==> Tried(info[b], b, s0.calls, calls, r) && Answered(b, r, s0.calls, calls)
    {
      ghost var s1 := Now();
      r := BoValidate(b);
      if !info[b].pinned { AlongTry(info, b, threshold, s0, s1, Now(), r); }
    }

    /** The do-while of `amdgpu_cs_validate`. The search passes only entries that cannot make room, and the loop gives
        up only at its end, without a cursor, or after a failed eviction. */
    method Place(b: Bo) returns (r: Ret)
      requires Valid() && b in info
      modifies this`list, this`evictable, this`mem, this`bytesMoved, this`calls
      ensures Valid() && bytesMoved >= old(bytesMoved)
      ensures Along(info, b, threshold, old(Now()), Now())
      ensures Ended(info, b, old(Now()), Now(), r)
    {
      ghost var s0 := Now();
      SettledStart(info, b, list, mem);
      r := Ok;
      var again := true;
      while again
        invariant Valid() && bytesMoved >= old(bytesMoved)
        invariant Along(info, b, threshold, s0, Now())
        invariant again ==> MayTry(b, s0.calls, calls) && (info[b].pinned ==> Now() == s0)
        invariant !again ==> Ended(info, b, s0, Now(), r)
        decreases again, Resident(list, mem, info[b].allowed)
      {
        r := TryPlace(b, s0);
        again := false;
        if r == NoMem {
          again := Evict(b, s0);
        }
      }
    }

    /** One call of `amdgpu_cs_try_evict` in that loop. */
    method Evict(b: Bo, ghost s0: View) returns (evicted: bool)
      requires Valid() && b in info && Along(info, b, threshold, s0, Now()) && Tried(info[b], b, s0.calls, calls, NoMem)
      modifies this`list, this`evictable, this`mem, this`bytesMoved, this`calls
      ensures Valid() && bytesMoved >= old(bytesMoved) && Along(info, b, threshold, s0, Now())
      ensures Answered(b, NoMem, s0.calls, calls)
      ensures evicted ==> MayTry(b, s0.calls, calls)
      ensures evicted ==> Resident(list, mem, info[b].allowed) < old(Resident(list, mem, info[b].allowed))
      ensures !evicted ==> GivesUp(b, Now())
    {
      ghost var s1 := Now();
      ghost var i;
      evicted, i := TryEvict(b);
      AlongEvict(info, b, threshold, s0, s1, i, Now(), evicted);
    }

    /** `amdgpu_cs_validate`; `b` may or may not be on the list. With a shadow the buffer itself is validated
        again, after the first `n` calls, and without another eviction. */
    method Validate(b: Bo) returns (r: Ret, ghost n: nat)
      requires Valid() && b in info
      modifies this`list, this`evictable, this`mem, this`bytesMoved, this`calls
      ensures Valid() && bytesMoved >= old(bytesMoved)
      ensures Validated(info, b, threshold, old(Now()), Now(), r, n)
    {
      r := Place(b);
      n := |calls|;
      ghost var s1 := Now();
      if r != Ok || !info[b].shadow || info[b].pinned { LoopIsAll(info, b, threshold, old(Now()), s1, r); }
      if r != Ok {
        return;
      }
      if info[b].shadow {
        r := BoValidate(b);
        if !info[b].pinned { ThenAgain(info, b, threshold, old(Now()), s1, Now(), r); }
      }
    }

    /** `amdgpu_cs_list_validate` on the submission's own list. On success every unpinned buffer is in one of
        its allowed domains, including the entries skipped because they had been evicted to the front. Those are not
        looked at again, so a foreign buffer is refused unless it could make room for another. */
    method ListValidate() returns (r: Ret)
      requires Valid()
      modifies this`list, this`evictable, this`mem, this`bytesMoved, this`calls
      ensures Valid() && Kept(old(list), old(mem), list, mem)
      ensures r == Ok ==> forall b :: b in list ==> WellPlaced(info, mem, b)
      ensures r == Ok ==> forall b :: b in list && b in foreign ==>
        MayBeSkipped(info, old(mem), list, b)
      ensures r != Ok ==> exists b :: b in list && Refused(info, foreign, b, old(Now()), Now(), r)
      ensures Submission(info, old(list), threshold, old(calls), calls)
    {
      ghost var s0 := Now();
      var cur := if list == [] then Head else At(list[0]);
      WalkStarts(info, foreign, threshold, s0);
      while cur != Head
        invariant Valid() && cur != Null && (cur.At? ==> cur.bo in list)
        invariant Walking(info, foreign, threshold, s0, Now(), ToVisit(list, cur))
        decreases |ToVisit(list, cur)|
      {
        r := Visit(cur.bo, s0);
        if r != Ok {
          return;
        }
        cur := NextCursor(list, cur.bo);
      }
      return Ok;
    }

    /** The loop body of `amdgpu_cs_list_validate`, for the entry of `b`. */
    method Visit(b: Bo, ghost s0: View) returns (r: Ret)
      requires Valid() && b in list
      requires Walking(info, foreign, threshold, s0, Now(), ToVisit(list, At(b)))
      modifies this`list, this`evictable, this`mem, this`bytesMoved, this`calls
      ensures Valid() && b in list && Kept(s0.list, s0.mem, list, mem)
      ensures Submission(info, s0.list, threshold, s0.calls, calls)
      ensures b in foreign ==> r == Fail(-EPERM) && Now() == old(Now())
      ensures b !in foreign ==> (evictable == Null <==> old(evictable) == Null || old(evictable) == At(b))
      ensures evictable == Null ==> list == old(list)
      ensures r == Ok && info[b].shadow && !info[b].pinned ==> PlacedTwice(b, old(calls), calls)
      ensures r != Ok ==> Refused(info, foreign, b, s0, Now(), r)
      ensures r == Ok ==> var cur := NextCursor(list, b);
        && (cur.At? ==> cur.bo in list) && Walking(info, foreign, threshold, s0, Now(), ToVisit(list, cur))
        && |ToVisit(list, cur)| < |ToVisit(old(list), At(b))|
    {
      if b in foreign {
        return Fail(-EPERM);
      }
      if evictable == At(b) {
        evictable := Null;
      }
      ghost var s1 := Now();
      ghost var n;
      r, n := Validate(b);
      VisitNext(info, foreign, threshold, b, s0, old(Now()), s1, Now(), r, n);
      if r == Ok && info[b].shadow && !info[b].pinned {
        ShadowPlacedTwice(info, b, threshold, s1, Now(), n);
      }
    }
  }
}
