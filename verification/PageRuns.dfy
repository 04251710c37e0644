/** Runs of mappings as the processor sees them, on both architectures. */
module PageRuns {
  import opened Options
  import opened Entries
  import opened PageTree
  import opened PagingWalk
  import A = AddressSpaces
  import V = VirtualMemory64Model

  datatype Mapping = Mapping(phys: nat, flags: nat)

  ghost predicate Matches(o: Option<nat>, last: Option<Mapping>) {
    o == if last.Some? then Some(LeafFor(last.value.phys, last.value.flags)) else None
  }

  ghost predicate Shows(w: Option<Found>, last: Option<Mapping>) {
    (w.Some? <==> last.Some?) && (w.Some? ==> Carries(w.value, last.value.phys, last.value.flags))
  }

  // ----- x86

  /** The latest mapping of a page that was not taken back. */
  function Last86(ops: seq<A.Op>, d: nat, page: nat, before: Option<Mapping>): Option<Mapping>
    decreases ops
  {
    if ops == [] then before else Last86(ops[1..], d, page, After86(ops[0], d, page, before))
  }

  function After86(op: A.Op, d: nat, page: nat, before: Option<Mapping>): Option<Mapping> {
    match op
    case Map(e, q, phys, flags) => if e == d && q == page then Some(Mapping(phys, flags)) else before
    case Unmap(e, q) => if e == d && q == page then None else before
    case DeleteSpace(e) => if e == d then None else before
    case _ => before
  }

  function At(a: A.Pages, d: nat, page: nat): Option<nat> {
    if (d, page) in a then Some(a[(d, page)]) else None
  }

  lemma {:induction false} AbsLast(a: A.Pages, ops: seq<A.Op>, d: nat, page: nat, before: Option<Mapping>)
    requires Matches(At(a, d, page), before)
    ensures Matches(At(A.AbsRun(a, ops), d, page), Last86(ops, d, page, before))
    decreases ops
  {
    hide LeafFor;
    if ops == [] {
    } else {
      var op := ops[0];
      var before' := After86(op, d, page, before);
      assert Matches(At(A.AbsStep(a, op), d, page), before');
      AbsLast(A.AbsStep(a, op), ops[1..], d, page, before');
    }
  }

  /** After any run of the x86 machine, spaces made and deleted, pages mapped and unmapped, and
    clients storing in any interleaving: the processor finds a page exactly if it was mapped and not
    taken back since, and then with the address and the flags of its latest mapping. */
  lemma RunWalks(s: A.Sys, ops: seq<A.Op>, d: nat, virt: nat)
    requires A.SysInv(s) && A.RunEnabled(s, ops) && virt < 0x1_0000_0000
    requires (d, virt / 0x1000) !in A.PagesOf(s.mem) && d in A.Spaces(A.Run(s, ops).mem)
    ensures Shows(Walk86(A.Run(s, ops).mem.ram, d, virt), Last86(ops, d, virt / 0x1000, None))
  {
    hide LeafFor, A.PagesOf, A.Refines, Carries, Inv, Lookup, Walk86, A.AbsRun, A.Run, A.RunEnabled, Last86;
    A.PagesOfRefines(s.mem);
    var a, page, m := A.PagesOf(s.mem), virt / 0x1000, A.Run(s, ops).mem;
    A.RunRefines(s, a, ops, d, page);
    AbsLast(a, ops, d, page, None);
    Walk86Is(m, d, virt);
    assert A.Path(page) == [virt / 0x40_0000, virt / 0x1000 % 1024];
    var last := Last86(ops, d, page, None);
    if last.Some? {
      LeafCarries(last.value.phys, last.value.flags);
    }
  }

  // ----- x86_64

  /** The operation maps the page of `virt`: bit 7 of the flags asks for a page of 2M. */
  predicate Covers(op: V.MapOp, virt: nat) {
    var size := if op.flags / 128 % 2 == 1 then 0x20_0000 else 0x1000;
    virt % 0x1_0000_0000_0000 / size == op.virt % 0x1_0000_0000_0000 / size
  }

  function Last64(ops: seq<V.MapOp>, space: nat, virt: nat, before: Option<Mapping>): Option<Mapping>
    decreases ops
  {
    if ops == [] then before
    else
      var op := ops[0];
      Last64(ops[1..], space, virt,
             if op.space == space && Covers(op, virt) then Some(Mapping(op.phys, op.flags)) else before)
  }

  lemma {:induction false} LatestLast(
      ops: seq<V.MapOp>, space: nat, virt: nat, o: Option<nat>, before: Option<Mapping>)
    requires Matches(o, before)
    ensures Matches(V.Latest(ops, space, virt, o), Last64(ops, space, virt, before))
    decreases ops
  {
    hide LeafFor;
    if ops == [] {
    } else {
      var op := ops[0];
      var hit := op.space == space && Covers(op, virt);
      LatestLast(ops[1..], space, virt, if hit then Some(LeafFor(op.phys, op.flags)) else o,
                 if hit then Some(Mapping(op.phys, op.flags)) else before);
    }
  }

  /** The same on x86_64 for any run of mappings of small and large pages. */
  lemma MapsWalk(m: Mem, ops: seq<V.MapOp>, space: nat, virt: nat)
    requires Inv(X64, m) && V.MapsEnabled(m, ops) && space in m.nodes && m.nodes[space].height == 4
    requires Walk64(m.ram, space, virt) == None
    ensures Shows(Walk64(V.MapsRun(m, ops).ram, space, virt), Last64(ops, space, virt, None))
  {
    hide LeafFor, Carries, Inv, Lookup, Walk64;
    V.MapsRefine(m, ops, space, virt);
    Walk64Is(m, space, virt);
    Walk64Is(V.MapsRun(m, ops), space, virt);
    LatestLast(ops, space, virt, None, None);
    var last := Last64(ops, space, virt, None);
    if last.Some? {
      LeafCarries(last.value.phys, last.value.flags);
    }
  }
}
