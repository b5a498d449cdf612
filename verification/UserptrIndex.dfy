/** The userptr interval index (amdgpu_mn.c): merge-on-insert nodes and their invalidation.

User memory handed to the GPU is kept in intervals; a new buffer swallows every interval it touches. The
intervals therefore stay disjoint, and that is what lets the page callback look up a single node.
The interval tree is a set of nodes; a lookup may return any node that meets the range.
 */
module UserptrIndex {
  import opened Lists

  /** A buffer object backed by user memory. TTM refuses empty buffers. */
  datatype BoRecord = Bo(id: nat, userptr: nat, size: nat) {
    function Last(): int {
      userptr + size - 1
    }

    predicate Maps(x: int) {
      userptr <= x <= Last()
    }
  }

  type Bo = b: BoRecord | b.size >= 1 witness Bo(0, 0, 1)

  datatype Node = Node(start: nat, last: nat, bos: seq<Bo>) {
    predicate Covers(x: int) {
      start <= x <= last
    }

    predicate Meets(lo: int, hi: int) {
      start <= hi && lo <= last
    }
  }

  datatype Errno = Ok | ENOMEM

  type Index = set<Node>

  ghost predicate NoDuplicates<T>(xs: seq<T>) {
    forall i, j :: 0 <= i < j < |xs| ==> xs[i] != xs[j]
  }

  /** A node is non-empty and covers its buffers. */
  ghost predicate NodeOk(n: Node) {
    && n.start <= n.last
    && n.bos != []
    && NoDuplicates(n.bos)
    && forall b :: b in n.bos ==> n.start <= b.userptr && b.Last() <= n.last
  }

  ghost predicate WellFormed(index: Index) {
    && (forall n :: n in index ==> NodeOk(n))
    && (forall n, n' :: n in index && n' in index && n != n' ==> !n.Meets(n'.start, n'.last))
  }

  ghost function Registered(index: Index): set<Bo> {
    set n, b | n in index && b in n.bos :: b
  }

  /** Nodes that meet the range `lo .. hi`. */
  ghost function Hit(index: Index, lo: int, hi: int): Index {
    set n | n in index && n.Meets(lo, hi)
  }

  // ---------------------------------------------------------------------------------------------
  // Lookups

  /** A node meets a range exactly if they share an address. */
  lemma MeetsIff(n: Node, lo: int, hi: int)
    requires n.start <= n.last && lo <= hi
    ensures n.Meets(lo, hi) <==> exists x :: lo <= x <= hi && n.Covers(x)
  {
    assert n.Covers(n.start);
    if lo >= n.start && n.Meets(lo, hi) { assert n.Covers(lo); }
  }

  /** A registered buffer lies inside exactly one node. */
  lemma ExactlyOneNode(index: Index, b: Bo)
    requires WellFormed(index) && b in Registered(index)
    ensures exists n :: n in index && b in n.bos
    ensures forall n, n' :: n in index && n' in index && b in n.bos && n'.Meets(b.userptr, b.Last()) ==> n == n'
  {
  }

  /** One lookup is complete: a node that meets the page has every registered buffer mapping the page, and
      if no node meets it then no registered buffer maps it. */
  lemma SingleLookupComplete(index: Index, address: nat, b: Bo)
    requires WellFormed(index) && b in Registered(index) && b.userptr <= address <= b.Last()
    ensures Hit(index, address, address) != {}
    ensures forall n :: n in Hit(index, address, address) ==> b in n.bos
  {
    var n :| n in index && b in n.bos;
    assert n in Hit(index, address, address);
  }

  // ---------------------------------------------------------------------------------------------
  // Merging

  /** `lo .. hi` is the hull of the range `first .. last` and the nodes of `taken`. */
  ghost predicate Hull(taken: Index, first: int, last: int, lo: int, hi: int) {
    && lo <= first && last <= hi
    && (lo == first || exists n :: n in taken && n.start == lo)
    && (hi == last || exists n :: n in taken && n.last == hi)
    && forall n :: n in taken ==> lo <= n.start && n.last <= hi
  }

  /** Widening never pulls in a node that missed the original range. */
  lemma WideningStaysPut(index: Index, taken: Index, first: int, last: int, lo: int, hi: int, n: Node)
    requires WellFormed(index) && taken <= Hit(index, first, last) && Hull(taken, first, last, lo, hi)
    requires first <= last && n in index - taken && n.Meets(lo, hi)
    ensures n.Meets(first, last)
  {
    if n.last < first {
      var r :| r in taken && r.start == lo;
      assert r.Meets(n.start, n.last);
    } else if last < n.start {
      var r :| r in taken && r.last == hi;
      assert r.Meets(n.start, n.last);
    }
  }

  /** The merged interval is exactly the union of the range and the nodes it met. */
  lemma HullIsUnion(taken: Index, first: int, last: int, lo: int, hi: int, x: int)
    requires Hull(taken, first, last, lo, hi)
    requires forall n :: n in taken ==> n.Meets(first, last)
    ensures lo <= x <= hi <==> first <= x <= last || exists n :: n in taken && n.start <= x <= n.last
  {
    if lo <= x < first {
      var r :| r in taken && r.start == lo;
      assert r.start <= x <= r.last;
    } else if last < x <= hi {
      var r :| r in taken && r.last == hi;
      assert r.start <= x <= r.last;
    }
  }

  /** `n` is the node that replaces the nodes met by the range of `b`: their union, holding `b` and their
      buffers. */
  ghost predicate MergedNode(before: Index, b: Bo, n: Node) {
    var hit := Hit(before, b.userptr, b.Last());
    && Hull(hit, b.userptr, b.Last(), n.start, n.last)
    && n.bos != [] && n.bos[0] == b && NoDuplicates(n.bos)
    && (forall c :: c in n.bos <==> c == b || c in Registered(hit))
  }

  ghost function Merge(before: Index, b: Bo, n: Node): Index {
    before - Hit(before, b.userptr, b.Last()) + {n}
  }

  lemma MergedNodeOk(before: Index, b: Bo, n: Node)
    requires WellFormed(before) && MergedNode(before, b, n)
    ensures NodeOk(n)
  {
    var hit := Hit(before, b.userptr, b.Last());
    forall c | c in n.bos
      ensures n.start <= c.userptr && c.Last() <= n.last
    {
      if c != b {
        var r :| r in hit && c in r.bos;
        assert NodeOk(r);
      }
    }
  }

  lemma MergeRegisters(before: Index, b: Bo, n: Node)
    requires MergedNode(before, b, n)
    ensures Registered(Merge(before, b, n)) == Registered(before) + {b}
  {
    var hit, after := Hit(before, b.userptr, b.Last()), Merge(before, b, n);
    forall c: Bo
      ensures c in Registered(after) <==> c in Registered(before) || c == b
    {
      if c in Registered(before) {
        var r :| r in before && c in r.bos;
        if r in hit { assert c in Registered(hit) && c in n.bos; }
        assert r in hit || r in after;
      }
      if c in Registered(hit) {
        var r :| r in hit && c in r.bos;
        assert r in before;
      }
      assert b in n.bos && n in after;
    }
  }

  /** Registration keeps the index well formed and adds exactly the new buffer; no buffer is lost. */
  lemma MergeKeepsWellFormed(before: Index, b: Bo, n: Node)
    requires WellFormed(before) && MergedNode(before, b, n)
    ensures WellFormed(Merge(before, b, n)) && Registered(Merge(before, b, n)) == Registered(before) + {b}
  {
    var hit := Hit(before, b.userptr, b.Last());
    MergedNodeOk(before, b, n);
    MergeRegisters(before, b, n);
    forall r | r in before - hit
      ensures !r.Meets(n.start, n.last) && !n.Meets(r.start, r.last)
    {
      if r.Meets(n.start, n.last) {
        WideningStaysPut(before, hit, b.userptr, b.Last(), n.start, n.last, r);
      }
    }
  }

  // ---------------------------------------------------------------------------------------------
  // Removing

  function Without(xs: seq<Bo>, i: nat): seq<Bo>
    requires i < |xs|
  {
    xs[..i] + xs[i + 1..]
  }

  lemma WithoutContents(xs: seq<Bo>, i: nat)
    requires i < |xs| && NoDuplicates(xs)
    ensures NoDuplicates(Without(xs, i))
    ensures forall c :: c in Without(xs, i) <==> c in xs && c != xs[i]
  {
    assert xs == xs[..i] + [xs[i]] + xs[i + 1..];
  }

  /** An element of the circular list of a node: its head, or the link of a buffer. */
  datatype Link = Head | Of(bo: Bo)

  /** The next element of the circular list. */
  function Successor(bos: seq<Bo>, x: Link): Link
    requires x.Of? ==> x.bo in bos
  {
    var i := if x.Of? then IndexOf(bos, x.bo) + 1 else 0;
    if i < |bos| then Of(bos[i]) else Head
  }

  /** From the head, the list goes through the buffers in order and back to the head. */
  lemma SuccessorAt(bos: seq<Bo>, i: nat)
    requires NoDuplicates(bos) && i <= |bos|
    ensures Successor(bos, if i == 0 then Head else Of(bos[i - 1])) == if i < |bos| then Of(bos[i]) else Head
  {
  }

  /** After a buffer is unlinked, the successor it had is still in the list; the list through that element is empty
      exactly if nothing is left, and then the element is the head. */
  lemma SavedSuccessor(bos: seq<Bo>, i: nat)
    requires NoDuplicates(bos) && i < |bos|
    ensures var saved := Successor(bos, Of(bos[i])); var rest := Without(bos, i);
      && (saved.Of? ==> saved.bo in rest)
      && (Successor(rest, saved) == saved <==> rest == [])
      && (rest == [] ==> saved == Head)
  {
    var saved, rest := Successor(bos, Of(bos[i])), Without(bos, i);
    WithoutContents(bos, i);
    if saved.Of? {
      assert saved.bo in bos && saved.bo != bos[i];
    }
  }

  /** The index after the `i`-th buffer of `n` is unregistered. */
  ghost function Remove(before: Index, n: Node, i: nat): Index
    requires i < |n.bos|
  {
    var rest := Without(n.bos, i);
    before - {n} + (if rest == [] then {} else {n.(bos := rest)})
  }

  lemma RemoveUnregisters(before: Index, n: Node, i: nat)
    requires WellFormed(before) && n in before && i < |n.bos|
    ensures Registered(Remove(before, n, i)) == Registered(before) - {n.bos[i]}
  {
    var b, after, n' := n.bos[i], Remove(before, n, i), n.(bos := Without(n.bos, i));
    assert NodeOk(n);
    WithoutContents(n.bos, i);
    forall c: Bo
      ensures c in Registered(after) <==> c in Registered(before) && c != b
    {
      if c in Registered(before) && c != b {
        var r :| r in before && c in r.bos;
        assert (if r == n then n' else r) in after;
      }
      if c in Registered(after) {
        var r :| r in after && c in r.bos;
        if r != n' {
          assert r in before && !r.Meets(n.start, n.last);
          assert NodeOk(r);
        }
      }
    }
  }

  /** Unregistration keeps the index well formed and drops exactly that buffer. */
  lemma RemoveKeepsWellFormed(before: Index, n: Node, i: nat)
    requires WellFormed(before) && n in before && i < |n.bos|
    ensures WellFormed(Remove(before, n, i))
    ensures Registered(Remove(before, n, i)) == Registered(before) - {n.bos[i]}
  {
    assert NodeOk(n);
    WithoutContents(n.bos, i);
    RemoveUnregisters(before, n, i);
    var n' := n.(bos := Without(n.bos, i));
    assert forall r :: r in before && r != n ==> !r.Meets(n'.start, n'.last) && !n'.Meets(r.start, r.last);
  }

  // ---------------------------------------------------------------------------------------------
  // Whole runs

  datatype Op = Register(bo: Bo) | RegisterFails(bo: Bo) | Unregister(bo: Bo)

  ghost predicate Next(index: Index, op: Op, index': Index) {
    match op
    case Register(b) => b !in Registered(index) && exists n :: MergedNode(index, b, n) && index' == Merge(index, b, n)
    // no node to reuse and none allocated
    case RegisterFails(b) => Hit(index, b.userptr, b.Last()) == {} && index' == index
    case Unregister(b) =>
      if b in Registered(index)
      then exists n, i :: n in index && 0 <= i < |n.bos| && n.bos[i] == b && index' == Remove(index, n, i)
      else index' == index
  }

  /** The buffers a run of operations leaves registered. */
  function Live(ops: seq<Op>): set<Bo> {
    if ops == [] then {} else
    var rest := Live(ops[..|ops| - 1]);
    match ops[|ops| - 1]
    case Register(b) => rest + {b}
    case RegisterFails(_) => rest
    case Unregister(b) => rest - {b}
  }

  /** In every state of every run the nodes are disjoint, and exactly the live buffers are covered. */
  lemma {:induction false} RunWellFormed(ops: seq<Op>, run: seq<Index>)
    requires |run| == |ops| + 1 && run[0] == {}
    requires forall i :: 0 <= i < |ops| ==> Next(run[i], ops[i], run[i + 1])
    ensures WellFormed(run[|ops|]) && Registered(run[|ops|]) == Live(ops)
    decreases |ops|
  {
    if ops != [] {
      var k := |ops| - 1;
      RunWellFormed(ops[..k], run[..k + 1]);
      assert Next(run[k], ops[k], run[k + 1]);
      StepWellFormed(run[k], ops[k], run[k + 1]);
    }
  }

  lemma StepWellFormed(index: Index, op: Op, index': Index)
    requires WellFormed(index) && Next(index, op, index')
    ensures WellFormed(index')
    ensures Registered(index') ==
      match op
      case Register(b) => Registered(index) + {b}
      case RegisterFails(_) => Registered(index)
      case Unregister(b) => Registered(index) - {b}
  {
    match op
    case Register(b) =>
      var n :| MergedNode(index, b, n) && index' == Merge(index, b, n);
      MergeKeepsWellFormed(index, b, n);
    case RegisterFails(_) =>
    case Unregister(b) =>
      if b in Registered(index) {
        var n, i :| n in index && 0 <= i < |n.bos| && n.bos[i] == b && index' == Remove(index, n, i);
        RemoveKeepsWellFormed(index, n, i);
      }
  }

  // ---------------------------------------------------------------------------------------------
  // The driver's code

  /** `amdgpu_ttm_tt_affect_userptr`: user memory at address 0, and memory the calling task is itself
      pinning (`pinning`), is never affected. */
  predicate Affected(b: Bo, start: nat, end: nat, pinning: set<Bo>) {
    b.userptr != 0 && !(b.userptr > end || b.userptr + b.size <= start) && b !in pinning
  }

  /** A buffer is affected exactly if it maps an address of the range, is not at address 0 and is not being pinned. */
  lemma AffectedIff(b: Bo, start: nat, end: nat, pinning: set<Bo>)
    requires start <= end
    ensures Affected(b, start, end, pinning) <==>
      b.userptr != 0 && b !in pinning && exists x :: start <= x <= end && b.Maps(x)
  {
    var x := if start < b.userptr then b.userptr else start;
    assert Affected(b, start, end, pinning) ==> start <= x <= end && b.Maps(x);
  }

  class Notifier {
    var objects: Index

    ghost predicate Valid()
      reads this
    {
      WellFormed(objects)
    }

    constructor ()
      ensures Valid() && objects == {}
    {
      objects := {};
    }

    /** `amdgpu_mn_register`; `allocOk` says whether kmalloc would succeed. */
    method Register(b: Bo, allocOk: bool) returns (r: Errno)
      requires Valid() && b !in Registered(objects)
      modifies this
      ensures Valid()
      ensures r == ENOMEM <==> Hit(old(objects), b.userptr, b.Last()) == {} && !allocOk
      ensures r == ENOMEM ==> objects == old(objects)
      ensures r == Ok ==> exists n :: MergedNode(old(objects), b, n) && objects == Merge(old(objects), b, n)
      ensures r == Ok ==> Registered(objects) == Registered(old(objects)) + {b}
      ensures Next(old(objects), if r == Ok then Op.Register(b) else RegisterFails(b), objects)
    {
      ghost var index := objects;
      var addr, end, bos, found := Gather(b);
      if !found && !allocOk {
        return ENOMEM;
      }
      var node := Node(addr, end, [b] + bos);
      MergeKeepsWellFormed(index, b, node);
      objects := objects + {node};
      return Ok;
    }

    /** The loop that takes nodes out of the tree while the widened range still meets one. */
    method Gather(b: Bo) returns (addr: nat, end: nat, bos: seq<Bo>, found: bool)
      requires Valid() && b !in Registered(objects)
      modifies this
      ensures var hit := Hit(old(objects), b.userptr, b.Last());
        objects == old(objects) - hit && (found <==> hit != {})
      ensures MergedNode(old(objects), b, Node(addr, end, [b] + bos))
    {
      ghost var index := objects;
      ghost var taken: Index := {};
      addr, end := b.userptr, b.userptr + b.size - 1;
      bos, found := [], false;
      while exists it :: it in objects && it.Meets(addr, end)
        invariant objects == index - taken && (found <==> taken != {})
        invariant Gathering(index, b, taken, addr, end, bos)
        decreases objects
      {
        var it :| it in objects && it.Meets(addr, end);
        GatherNext(index, b, taken, addr, end, bos, it);
        TakeOut(index, taken, it);
        found := true;
        objects := objects - {it};
        taken := taken + {it};
        assert objects == index - taken;
        addr := if it.start < addr then it.start else addr;
        end := if it.last > end then it.last else end;
        bos := it.bos + bos;
      }
      GatherDone(index, b, taken, addr, end, bos);
    }

    /** `amdgpu_mn_unregister`. */
    method Unregister(b: Bo)
      requires Valid()
      modifies this
      ensures Valid() && Registered(objects) == Registered(old(objects)) - {b}
      ensures b !in Registered(old(objects)) ==> objects == old(objects)
      ensures b in Registered(old(objects)) ==>
        exists n, i :: n in old(objects) && 0 <= i < |n.bos| && n.bos[i] == b && objects == Remove(old(objects), n, i)
      ensures Next(old(objects), Op.Unregister(b), objects)
    {
      if !(exists n :: n in objects && b in n.bos) {
        return;                        // bo->mn is NULL
      }
      var n :| n in objects && b in n.bos;
      var i: nat :| i < |n.bos| && n.bos[i] == b;
      RemoveKeepsWellFormed(objects, n, i);
      SavedSuccessor(n.bos, i);
      var saved := Successor(n.bos, Of(b));
      var rest := Without(n.bos, i);
      if Successor(rest, saved) == saved {
        objects := objects - {n};      // `saved` is the list head of this node
      } else {
        objects := objects - {n} + {n.(bos := rest)};
      }
    }

    /** `amdgpu_mn_invalidate_node`: the buffers moved to system memory, in list order. */
    method InvalidateNode(n: Node, start: nat, end: nat, pinning: set<Bo>) returns (hit: seq<Bo>)
      requires NoDuplicates(n.bos)
      ensures NoDuplicates(hit) && forall b :: b in hit <==> b in n.bos && Affected(b, start, end, pinning)
      ensures start <= end ==> forall b :: b in hit <==>
        b in n.bos && b.userptr != 0 && b !in pinning && exists x :: start <= x <= end && b.Maps(x)
    {
      hit := [];
      for i := 0 to |n.bos|
        invariant NoDuplicates(hit)
        invariant forall b :: b in hit <==> b in n.bos[..i] && Affected(b, start, end, pinning)
      {
        assert n.bos[i] !in n.bos[..i];
        assert n.bos[..i + 1] == n.bos[..i] + [n.bos[i]];
        if Affected(n.bos[i], start, end, pinning) {
          hit := hit + [n.bos[i]];
        }
      }
      assert n.bos[..|n.bos|] == n.bos;
      forall b: Bo | start <= end { AffectedIff(b, start, end, pinning); }
    }

    /** `amdgpu_mn_invalidate_page`: a single lookup reaches every affected registered buffer, once. */
    method InvalidatePage(address: nat, pinning: set<Bo>) returns (hit: seq<Bo>)
      requires Valid()
      ensures NoDuplicates(hit)
      ensures forall b :: b in hit <==>
        b in Registered(objects) && b.userptr != 0 && b !in pinning && b.userptr <= address < b.userptr + b.size
    {
      hit := [];
      if exists n :: n in objects && n.Meets(address, address) {
        var n :| n in objects && n.Meets(address, address);
        assert NodeOk(n);
        hit := InvalidateNode(n, address, address, pinning);
      }
      forall b: Bo | b in Registered(objects) && b.userptr != 0 && b !in pinning && b.Maps(address)
        ensures b in hit
      {
        SingleLookupComplete(objects, address, b);
        assert forall n :: n in objects && n.Meets(address, address) ==> n in Hit(objects, address, address);
      }
    }

    /** `amdgpu_mn_invalidate_range_start`: every affected registered buffer is reached, once. The end of the
        notified range is exclusive. */
    method InvalidateRange(start: nat, end: nat, pinning: set<Bo>) returns (hit: seq<Bo>)
      requires Valid() && start < end
      ensures NoDuplicates(hit)
      ensures forall b :: b in hit <==>
        b in Registered(objects) && b.userptr != 0 && b !in pinning && exists x :: start <= x < end && b.Maps(x)
    {
      hit := [];
      var todo, last := objects, end - 1;
      ghost var seen: Index := {};
      while exists n :: n in todo && n.Meets(start, last)
        invariant todo == objects - seen && seen <= objects && NoDuplicates(hit)
        invariant forall b :: b in hit <==> b in Registered(seen) && Affected(b, start, last, pinning)
        decreases |todo|
      {
        var n :| n in todo && n.Meets(start, last);
        assert NodeOk(n);
        var more := InvalidateNode(n, start, last, pinning);
        VisitNode(objects, seen, n, hit, more);
        TakeOut(objects, seen, n);
        hit := hit + more;
        todo := todo - {n};
        seen := seen + {n};
      }
      forall b: Bo | b in Registered(objects) && Affected(b, start, last, pinning)
        ensures b in hit
      {
        var n :| n in objects && b in n.bos;
        assert NodeOk(n) && n.Meets(start, last);
        assert n !in todo && n in seen;
      }
      forall b: Bo { AffectedIff(b, start, last, pinning); }
    }
  }

  // Steps of the loops above

  lemma TakeOut(index: Index, taken: Index, n: Node)
    ensures index - taken - {n} == index - (taken + {n})
  {
  }

  lemma HullGrows(taken: Index, first: int, last: int, lo: int, hi: int, n: Node)
    requires Hull(taken, first, last, lo, hi)
    ensures Hull(taken + {n}, first, last, if n.start < lo then n.start else lo, if n.last > hi then n.last else hi)
  {
    var taken' := taken + {n};
    assert n in taken';
    if lo != first {
      var r :| r in taken && r.start == lo;
      assert r in taken';
    }
    if hi != last {
      var r :| r in taken && r.last == hi;
      assert r in taken';
    }
  }

  /** Distinct nodes share no buffer. */
  lemma NodesShareNothing(index: Index, n: Node, r: Node, b: Bo)
    requires WellFormed(index) && n in index && r in index && b in n.bos && b in r.bos
    ensures n == r
  {
    assert NodeOk(n) && NodeOk(r);
  }

  lemma AppendDistinct<T>(xs: seq<T>, ys: seq<T>)
    requires NoDuplicates(xs) && NoDuplicates(ys) && forall x :: x in xs ==> x !in ys
    ensures NoDuplicates(xs + ys)
  {
    forall i, j | 0 <= i < j < |xs + ys|
      ensures (xs + ys)[i] != (xs + ys)[j]
    {
      if i < |xs| <= j { assert xs[i] in xs && ys[j - |xs|] in ys; }
    }
  }

  lemma SpliceKeeps(index: Index, taken: Index, n: Node, bos: seq<Bo>)
    requires WellFormed(index) && taken <= index && n in index - taken
    requires NoDuplicates(bos) && forall c :: c in bos <==> c in Registered(taken)
    ensures NoDuplicates(n.bos + bos)
    ensures forall c :: c in n.bos + bos <==> c in Registered(taken + {n})
  {
    assert NodeOk(n);
    forall c | c in n.bos
      ensures c !in bos
    {
      if c in bos {
        var r :| r in taken && c in r.bos;
        NodesShareNothing(index, n, r, c);
      }
    }
    AppendDistinct(n.bos, bos);
    RegisteredPlus(taken, n);
  }

  lemma RegisteredPlus(taken: Index, n: Node)
    ensures forall c :: c in Registered(taken + {n}) <==> c in Registered(taken) || c in n.bos
  {
    forall c: Bo
      ensures c in Registered(taken + {n}) <==> c in Registered(taken) || c in n.bos
    {
      if c in Registered(taken) {
        var r :| r in taken && c in r.bos;
        assert r in taken + {n};
      }
      if c in n.bos { assert n in taken + {n}; }
    }
  }

  /** Progress of the merge loop: `taken` nodes are out of the tree, `lo .. hi` is their hull with the range,
      and `bos` is the list of their buffers. */
  ghost predicate Gathering(index: Index, b: Bo, taken: Index, lo: int, hi: int, bos: seq<Bo>) {
    && taken <= Hit(index, b.userptr, b.Last())
    && Hull(taken, b.userptr, b.Last(), lo, hi)
    && NoDuplicates(bos) && forall c :: c in bos <==> c in Registered(taken)
  }

  lemma GatherNext(index: Index, b: Bo, taken: Index, lo: int, hi: int, bos: seq<Bo>, n: Node)
    requires WellFormed(index) && Gathering(index, b, taken, lo, hi, bos)
    requires n in index - taken && n.Meets(lo, hi)
    ensures Gathering(index, b, taken + {n},
              if n.start < lo then n.start else lo, if n.last > hi then n.last else hi, n.bos + bos)
  {
    WideningStaysPut(index, taken, b.userptr, b.Last(), lo, hi, n);
    SpliceKeeps(index, taken, n, bos);
    HullGrows(taken, b.userptr, b.Last(), lo, hi, n);
  }

  /** When the loop ends, the removed nodes are exactly those that meet the original range. */
  lemma GatherDone(index: Index, b: Bo, taken: Index, lo: nat, hi: nat, bos: seq<Bo>)
    requires Gathering(index, b, taken, lo, hi, bos) && b !in Registered(index)
    requires forall it :: it in index - taken ==> !it.Meets(lo, hi)
    ensures taken == Hit(index, b.userptr, b.Last())
    ensures MergedNode(index, b, Node(lo, hi, [b] + bos))
  {
    forall n | n in Hit(index, b.userptr, b.Last())
      ensures n in taken
    {
      assert n in taken || n in index - taken;
    }
    assert Registered(taken) <= Registered(index);
    AppendDistinct([b], bos);
  }

  lemma VisitNode(index: Index, seen: Index, n: Node, hit: seq<Bo>, more: seq<Bo>)
    requires WellFormed(index) && seen <= index && n in index - seen && NoDuplicates(hit) && NoDuplicates(more)
    requires (forall b :: b in hit ==> b in Registered(seen)) && (forall b :: b in more ==> b in n.bos)
    ensures NoDuplicates(hit + more)
    ensures forall c :: c in Registered(seen + {n}) <==> c in Registered(seen) || c in n.bos
  {
    forall c | c in hit
      ensures c !in more
    {
      if c in more {
        var r :| r in seen && c in r.bos;
        NodesShareNothing(index, n, r, c);
      }
    }
    AppendDistinct(hit, more);
    RegisteredPlus(seen, n);
  }
}
