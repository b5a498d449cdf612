/** The GART page table (amdgpu_gart.c): binding and unbinding ranges of CPU pages.

One CPU page covers `ratio` GPU pages of 4096 bytes each.
 */
module GartTable {
  import opened Bits

  const GPU_PAGE_SIZE: nat := 4096

  /** The flags `amdgpu_gart_unbind` writes (AMDGPU_PTE_SYSTEM). */
  const PTE_SYSTEM: nat := 2

  datatype Pte = Pte(addr: nat, flags: nat)

  /** A bind or unbind of `|pages|` CPU pages from GPU page `t` on. */
  datatype Op = Op(t: nat, pages: seq<nat>, flags: nat)

  predicate Covers(op: Op, ratio: nat, q: nat) {
    op.t <= q < op.t + |op.pages| * ratio
  }

  lemma PageOf(op: Op, ratio: nat, q: nat)
    requires ratio >= 1 && Covers(op, ratio, q)
    ensures 0 <= (q - op.t) / ratio < |op.pages|
  {
    DivLess(q - op.t, ratio, |op.pages|);
  }

  /** What entry `q` holds after `op`. */
  function Entry(op: Op, ratio: nat, q: nat): Pte
    requires ratio >= 1 && Covers(op, ratio, q)
  {
    PageOf(op, ratio, q);
    Pte(op.pages[(q - op.t) / ratio] + (q - op.t) % ratio * GPU_PAGE_SIZE, op.flags)
  }

  function Write(table: seq<Pte>, op: Op, ratio: nat): (r: seq<Pte>)
    requires ratio >= 1
    ensures |r| == |table|
  {
    seq(|table|, q requires 0 <= q < |table| => if Covers(op, ratio, q) then Entry(op, ratio, q) else table[q])
  }

  /** GPU page `j` of CPU page `i`. */
  lemma EntryAt(op: Op, ratio: nat, i: nat, j: nat)
    requires ratio >= 1 && i < |op.pages| && j < ratio
    ensures Covers(op, ratio, op.t + i * ratio + j)
    ensures Entry(op, ratio, op.t + i * ratio + j) == Pte(op.pages[i] + j * GPU_PAGE_SIZE, op.flags)
  {
    InPage(i, ratio, j, |op.pages|);
  }

  lemma InPage(i: nat, ratio: nat, j: nat, n: nat)
    requires j < ratio && i < n
    ensures (i * ratio + j) / ratio == i && (i * ratio + j) % ratio == j
    ensures i * ratio + j < i * ratio + ratio <= n * ratio
  {
    ModUnique(i * ratio + j, ratio, i, j);
    MultipleIsFar(ratio, n - i);
    assert ratio * (n - i) == n * ratio - i * ratio;
  }

  // ---------------------------------------------------------------------------------------------
  // Runs of operations

  function Run(table: seq<Pte>, ops: seq<Op>, ratio: nat): (r: seq<Pte>)
    requires ratio >= 1
    ensures |r| == |table|
  {
    if ops == [] then table else Write(Run(table, ops[..|ops| - 1], ratio), ops[|ops| - 1], ratio)
  }

  ghost predicate Disjoint(a: Op, b: Op, ratio: nat) {
    forall q :: 0 <= q ==> !(Covers(a, ratio, q) && Covers(b, ratio, q))
  }

  /** Operations on disjoint ranges commute. */
  lemma Commute(table: seq<Pte>, a: Op, b: Op, ratio: nat)
    requires ratio >= 1 && Disjoint(a, b, ratio)
    ensures Write(Write(table, a, ratio), b, ratio) == Write(Write(table, b, ratio), a, ratio)
  {
    var x, y := Write(Write(table, a, ratio), b, ratio), Write(Write(table, b, ratio), a, ratio);
    assert forall q :: 0 <= q < |table| ==> x[q] == y[q];
  }

  /** After any run an entry holds what the last operation covering it wrote, or what it held at first. */
  lemma {:induction false} LastWriterWins(table: seq<Pte>, ops: seq<Op>, ratio: nat, k: nat, q: nat)
    requires ratio >= 1 && q < |table| && k <= |ops|
    requires forall m :: k <= m < |ops| ==> !Covers(ops[m], ratio, q)
    requires k > 0 ==> Covers(ops[k - 1], ratio, q)
    ensures Run(table, ops, ratio)[q] == if k == 0 then table[q] else Entry(ops[k - 1], ratio, q)
    decreases |ops|
  {
    if |ops| > k {
      LastWriterWins(table, ops[..|ops| - 1], ratio, k, q);
    }
  }

  // ---------------------------------------------------------------------------------------------
  // Unbinding

  /** The operation `amdgpu_gart_unbind` performs. */
  function Unbinding(t: nat, pages: nat, dummy: nat): Op {
    Op(t, seq(pages, _ => dummy), PTE_SYSTEM)
  }

  /** What an unbound entry holds: its part of the dummy page. */
  function DummyEntry(dummy: nat, ratio: nat, q: nat): Pte
    requires ratio >= 1
  {
    Pte(dummy + q % ratio * GPU_PAGE_SIZE, PTE_SYSTEM)
  }

  lemma AlignedMod(t: nat, ratio: nat, q: nat)
    requires ratio >= 1 && t % ratio == 0 && t <= q
    ensures (q - t) % ratio == q % ratio
  {
    var c, d := t / ratio, q - t;
    assert t == ratio * c;
    assert d == ratio * (d / ratio) + d % ratio;
    InPage(d / ratio + c, ratio, d % ratio, d / ratio + c + 1);
    assert (d / ratio + c) * ratio + d % ratio == q;
  }

  /** Unbinding a page-aligned range leaves dummy entries there, whatever was bound. */
  lemma UnbindRestores(table: seq<Pte>, t: nat, pages: nat, dummy: nat, ratio: nat, q: nat)
    requires ratio >= 1 && t % ratio == 0 && q < |table|
    ensures Write(table, Unbinding(t, pages, dummy), ratio)[q] ==
      if t <= q < t + pages * ratio then DummyEntry(dummy, ratio, q) else table[q]
  {
    if t <= q < t + pages * ratio { AlignedMod(t, ratio, q); }
  }

  /** Binding over unbound entries and unbinding again changes nothing at all. */
  lemma BindUnbind(table: seq<Pte>, op: Op, dummy: nat, ratio: nat)
    requires ratio >= 1 && op.t % ratio == 0
    requires forall q :: 0 <= q < |table| && Covers(op, ratio, q) ==> table[q] == DummyEntry(dummy, ratio, q)
    ensures Write(Write(table, op, ratio), Unbinding(op.t, |op.pages|, dummy), ratio) == table
  {
    var bound := Write(table, op, ratio);
    forall q: nat | q < |table|
      ensures Write(bound, Unbinding(op.t, |op.pages|, dummy), ratio)[q] == table[q]
    {
      UnbindRestores(bound, op.t, |op.pages|, dummy, ratio, q);
    }
  }

  datatype Ret = Ok | EINVAL

  class Gart {
    var ready: bool
    /** The table is mapped for the CPU (`gart.ptr` is not NULL). */
    var mapped: bool
    const table: array<Pte>
    const ratio: nat
    const dummy: nat

    ghost predicate Valid()
      reads this
    {
      ratio >= 1
    }

    constructor (entries: array<Pte>, ratio: nat, dummy: nat)
      requires ratio >= 1
      ensures Valid() && table == entries && this.ratio == ratio && this.dummy == dummy && ready && mapped
    {
      table, this.ratio, this.dummy, ready, mapped := entries, ratio, dummy, true, true;
    }

    /** The inner loop: one CPU page, from entry `t` on. */
    method WritePage(t: nat, base: nat, flags: nat) returns (next: nat)
      requires Valid() && t + ratio <= table.Length
      modifies table
      ensures next == t + ratio
      ensures forall q :: 0 <= q < table.Length ==>
        table[q] == if t <= q < t + ratio then Pte(base + (q - t) * GPU_PAGE_SIZE, flags) else old(table[q])
    {
      var pageBase := base;
      next := t;
      for j := 0 to ratio
        invariant next == t + j && pageBase == base + j * GPU_PAGE_SIZE
        invariant forall q :: 0 <= q < table.Length ==>
          table[q] == if t <= q < t + j then Pte(base + (q - t) * GPU_PAGE_SIZE, flags) else old(table[q])
      {
        table[next] := Pte(pageBase, flags);
        pageBase := pageBase + GPU_PAGE_SIZE;
        next := next + 1;
      }
    }

    /** The outer loop shared by binding and unbinding, once the table is known to be mapped. */
    method WritePages(t0: nat, pages: seq<nat>, flags: nat)
      requires Valid() && t0 + |pages| * ratio <= table.Length
      modifies table
      ensures table[..] == Write(old(table[..]), Op(t0, pages, flags), ratio)
    {
      var t := t0;
      ghost var op := Op(t0, pages, flags);
      for i := 0 to |pages|
        invariant t == t0 + i * ratio <= table.Length
        invariant table[..] == Write(old(table[..]), Op(t0, pages[..i], flags), ratio)
      {
        ghost var before := table[..];
        assert (i + 1) * ratio <= |pages| * ratio;
        t := WritePage(t, pages[i], flags);
        NextPage(old(table[..]), before, table[..], t0, pages, flags, ratio, i);
      }
      assert pages[..|pages|] == pages;
    }

    /** `amdgpu_gart_bind`. */
    method Bind(offset: nat, pages: nat, dma: seq<nat>, flags: nat) returns (r: Ret)
      requires Valid() && |dma| == pages && offset / GPU_PAGE_SIZE + pages * ratio <= table.Length
      modifies table
      ensures r == if ready then Ok else EINVAL
      ensures table[..] == if ready && mapped then Write(old(table[..]), Op(offset / GPU_PAGE_SIZE, dma, flags), ratio)
        else old(table[..])
    {
      if !ready { return EINVAL; }
      if mapped {
        WritePages(offset / GPU_PAGE_SIZE, dma, flags);
      }
      r := Ok;
    }

    /** `amdgpu_gart_unbind`. */
    method Unbind(offset: nat, pages: nat)
      requires Valid() && offset / GPU_PAGE_SIZE + pages * ratio <= table.Length
      modifies table
      ensures table[..] == if ready && mapped
        then Write(old(table[..]), Unbinding(offset / GPU_PAGE_SIZE, pages, dummy), ratio) else old(table[..])
    {
      if !ready { return; }
      if mapped {
        WritePages(offset / GPU_PAGE_SIZE, seq(pages, _ => dummy), PTE_SYSTEM);
      }
    }

    /** `amdgpu_gart_fini`, for an aperture of `size` bytes: every entry of a whole CPU page ends as a dummy entry. */
    method Fini(size: nat)
      requires Valid() && table.Length == size / GPU_PAGE_SIZE
      modifies this, table
      ensures Valid() && !ready && mapped == old(mapped)
      ensures old(ready) && mapped ==> AllDummies(table[..], CpuPages(size, ratio), dummy, ratio)
      ensures !(old(ready) && mapped) ==> table[..] == old(table[..])
    {
      WholePages(size, ratio);
      ghost var before := table[..];
      Unbind(0, CpuPages(size, ratio));
      if ready && mapped {
        UnbindAll(before, CpuPages(size, ratio), dummy, ratio);
      }
      ready := false;
    }
  }

  /** The size of the aperture in CPU pages, as `amdgpu_gart_init` computes it. */
  function CpuPages(size: nat, ratio: nat): nat
    requires ratio >= 1
  {
    size / (GPU_PAGE_SIZE * ratio)
  }

  /** The entries of the first `pages` CPU pages are all unbound. */
  ghost predicate AllDummies(table: seq<Pte>, pages: nat, dummy: nat, ratio: nat)
    requires ratio >= 1
  {
    pages * ratio <= |table| && forall q :: 0 <= q < pages * ratio ==> table[q] == DummyEntry(dummy, ratio, q)
  }

  lemma UnbindAll(table: seq<Pte>, pages: nat, dummy: nat, ratio: nat)
    requires ratio >= 1 && pages * ratio <= |table|
    ensures AllDummies(Write(table, Unbinding(0, pages, dummy), ratio), pages, dummy, ratio)
  {
    forall q: nat | q < |table| {
      UnbindRestores(table, 0, pages, dummy, ratio, q);
    }
  }

  lemma WholePages(size: nat, ratio: nat)
    requires ratio >= 1
    ensures CpuPages(size, ratio) * ratio <= size / GPU_PAGE_SIZE
  {
    var n := CpuPages(size, ratio);
    assert GPU_PAGE_SIZE * ratio * n <= size;
    DivLess(size, GPU_PAGE_SIZE, n * ratio);
  }

  lemma NextPage(start: seq<Pte>, before: seq<Pte>, after: seq<Pte>,
                 t0: nat, pages: seq<nat>, flags: nat, ratio: nat, i: nat)
    requires ratio >= 1 && i < |pages| && |start| == |before| == |after|
    requires before == Write(start, Op(t0, pages[..i], flags), ratio)
    requires var t := t0 + i * ratio; forall q :: 0 <= q < |after| ==>
      after[q] == if t <= q < t + ratio then Pte(pages[i] + (q - t) * GPU_PAGE_SIZE, flags) else before[q]
    ensures after == Write(start, Op(t0, pages[..i + 1], flags), ratio)
  {
    var op := Op(t0, pages[..i + 1], flags);
    var t := t0 + i * ratio;
    assert (i + 1) * ratio == i * ratio + ratio;
    forall q: nat | q < |after|
      ensures after[q] == Write(start, op, ratio)[q]
    {
      if t <= q < t + ratio {
        EntryAt(op, ratio, i, q - t);
      } else if t0 <= q < t {
        PageOf(Op(t0, pages[..i], flags), ratio, q);
      }
    }
  }
}
