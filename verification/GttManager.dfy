/** Accounting of the GTT manager (amdgpu_gtt_mgr.c): pages available, pages of the live nodes, pages lost. */
module GttManager {

  /** How the part of `amdgpu_gtt_mgr_new` after the debit goes: no memory for the node, no range for it, or a node. */
  datatype Outcome = NoNode | NoRange | Placed

  datatype Ret = Ok | ENOMEM

  function Sum(nodes: seq<nat>): nat {
    if nodes == [] then 0 else Sum(nodes[..|nodes| - 1]) + nodes[|nodes| - 1]
  }

  lemma {:induction false} SumConcat(a: seq<nat>, b: seq<nat>)
    ensures Sum(a + b) == Sum(a) + Sum(b)
    decreases |b|
  {
    if b == [] {
      assert a + b == a;
    } else {
      SumConcat(a, b[..|b| - 1]);
      assert (a + b)[..|a + b| - 1] == a + b[..|b| - 1];
    }
  }

  function Without(nodes: seq<nat>, i: nat): seq<nat>
    requires i < |nodes|
  {
    nodes[..i] + nodes[i + 1..]
  }

  lemma SumWithout(nodes: seq<nat>, i: nat)
    requires i < |nodes|
    ensures Sum(nodes) == Sum(Without(nodes, i)) + nodes[i]
  {
    Parts(nodes, i);
    SumAround(nodes[..i], nodes[i], nodes[i + 1..]);
  }

  lemma Parts(nodes: seq<nat>, i: nat)
    requires i < |nodes|
    ensures nodes == nodes[..i] + [nodes[i]] + nodes[i + 1..]
  {
  }

  lemma SumAround(a: seq<nat>, x: nat, b: seq<nat>)
    ensures Sum(a + [x] + b) == Sum(a + b) + x
  {
    SumConcat(a + [x], b);
    SumConcat(a, [x]);
    SumConcat(a, b);
    SumOne(x);
  }

  lemma SumOne(x: nat)
    ensures Sum([x]) == x
  {
    assert [x][..0] == [];
  }

  datatype State = State(size: nat, available: nat, nodes: seq<nat>)

  datatype Op = New(pages: nat, outcome: Outcome) | Del(i: nat)

  predicate Enabled(s: State, op: Op) {
    op.Del? ==> op.i < |s.nodes|
  }

  /** The debit is taken. */
  predicate Debits(s: State, op: Op) {
    op.New? && s.available >= op.pages
  }

  function Apply(s: State, op: Op): State
    requires Enabled(s, op)
  {
    match op
    case New(pages, outcome) =>
      if s.available < pages then s
      else s.(available := s.available - pages, nodes := if outcome == Placed then s.nodes + [pages] else s.nodes)
    case Del(i) => s.(available := s.available + s.nodes[i], nodes := Without(s.nodes, i))
  }

  ghost predicate Run(run: seq<State>, ops: seq<Op>) {
    && |run| == |ops| + 1 && run[0] == State(run[0].size, run[0].size, [])
    && forall i :: 0 <= i < |ops| ==> Enabled(run[i], ops[i]) && run[i + 1] == Apply(run[i], ops[i])
  }

  /** Pages debited by calls that then failed. */
  ghost function Lost(run: seq<State>, ops: seq<Op>, n: nat): nat
    requires n <= |ops| < |run|
  {
    if n == 0 then 0 else
    Lost(run, ops, n - 1) +
      if Debits(run[n - 1], ops[n - 1]) && ops[n - 1].outcome != Placed then ops[n - 1].pages else 0
  }

  lemma StepBalances(s: State, op: Op)
    requires Enabled(s, op)
    ensures var t := Apply(s, op);
      s.available + Sum(s.nodes) ==
        t.available + Sum(t.nodes) + if Debits(s, op) && op.outcome != Placed then op.pages else 0
  {
    if op.New? {
      SumConcat(s.nodes, [op.pages]);
      SumOne(op.pages);
    } else {
      SumWithout(s.nodes, op.i);
    }
  }

  /** In every state of every run, what is available, allocated and lost to failed calls adds up to the size. */
  lemma {:induction false} Conserved(run: seq<State>, ops: seq<Op>, n: nat)
    requires Run(run, ops) && n <= |ops|
    ensures run[n].size == run[0].size && run[n].available + Sum(run[n].nodes) + Lost(run, ops, n) == run[n].size
  {
    if n > 0 {
      Conserved(run, ops, n - 1);
      StepBalances(run[n - 1], ops[n - 1]);
    }
  }

  /** So the GTT is never overcommitted, and once all nodes are gone it is all available again exactly if no call
      failed after its debit. */
  lemma AllReturnedIff(run: seq<State>, ops: seq<Op>, n: nat)
    requires Run(run, ops) && n <= |ops|
    ensures Sum(run[n].nodes) <= run[n].size
    ensures run[n].nodes == [] ==> (run[n].available == run[n].size <==>
      forall i :: 0 <= i < n && Debits(run[i], ops[i]) ==> ops[i].outcome == Placed || ops[i].pages == 0)
  {
    Conserved(run, ops, n);
    NothingLostIff(run, ops, n);
  }

  lemma {:induction false} NothingLostIff(run: seq<State>, ops: seq<Op>, n: nat)
    requires Run(run, ops) && n <= |ops|
    ensures Lost(run, ops, n) == 0 <==>
      forall i :: 0 <= i < n && Debits(run[i], ops[i]) ==> ops[i].outcome == Placed || ops[i].pages == 0
  {
    if n > 0 { NothingLostIff(run, ops, n - 1); }
  }

  /** A failed range allocation loses its pages for good. */
  lemma PagesLost()
    ensures var run := [State(8, 8, []), State(8, 3, [])];
      Run(run, [New(5, NoRange)]) && run[1].nodes == [] && run[1].available < run[1].size
  {
  }

  class Manager {
    const size: nat
    var available: nat
    var nodes: seq<nat>

    function View(): State
      reads this
    {
      State(size, available, nodes)
    }

    /** `amdgpu_gtt_mgr_init`. */
    constructor (size: nat)
      ensures View() == State(size, size, [])
    {
      this.size, available, nodes := size, size, [];
    }

    /** `amdgpu_gtt_mgr_new`; `node` says whether `mm_node` was set. */
    method Allocate(pages: nat, outcome: Outcome) returns (r: Ret, node: bool)
      modifies this
      ensures View() == Apply(old(View()), New(pages, outcome))
      ensures node <==> old(available) >= pages && outcome == Placed
      ensures r == ENOMEM <==> old(available) >= pages && outcome == NoNode
    {
      if available < pages { return Ok, false; }
      available := available - pages;
      if outcome == NoNode { return ENOMEM, false; }
      if outcome == NoRange { return Ok, false; }
      nodes := nodes + [pages];
      return Ok, true;
    }

    /** `amdgpu_gtt_mgr_del`, for a node or none. */
    method Free(i: nat, node: bool)
      requires node ==> i < |nodes|
      modifies this
      ensures View() == if node then Apply(old(View()), Del(i)) else old(View())
    {
      if !node { return; }
      available := available + nodes[i];
      nodes := Without(nodes, i);
    }
  }
}
