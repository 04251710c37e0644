/** What the processor finds when it walks the tables for an address, read off the two formats
  (sections 4.3 and 4.5 of the Intel SDM, Volume 3A), and that the tree's lookups agree with it. */
module PagingWalk {
  import opened Options
  import opened Entries
  import opened PageTree

  /** The entry that maps the page, and whether all entries on the way allow writing and user mode. */
  datatype Found = Found(entry: nat, writes: bool, user: bool)

  /** The walk of 32-bit paging, for addresses below 4G. */
  function Walk86(ram: seq<seq<nat>>, d: nat, virt: nat): Option<Found> {
    var pde := Entry(ram, d, virt / 0x40_0000);
    var pte := Entry(ram, pde / 0x1000, virt / 0x1000 % 1024);
    if pde % 2 == 0 || pte % 2 == 0 then None
    else Some(Found(pte, pde / 2 % 2 == 1 && pte / 2 % 2 == 1, pde / 4 % 2 == 1 && pte / 4 % 2 == 1))
  }

  /** The walk of 4-level paging, with pages of 1G, 2M and 4K. */
  function Walk64(ram: seq<seq<nat>>, d: nat, virt: nat): Option<Found> {
    var e4 := Entry(ram, d, virt / 0x80_0000_0000 % 512);
    var e3 := Entry(ram, e4 / 0x1000, virt / 0x4000_0000 % 512);
    var e2 := Entry(ram, e3 / 0x1000, virt / 0x20_0000 % 512);
    var e1 := Entry(ram, e2 / 0x1000, virt / 0x1000 % 512);
    var w3, u3 := e4 / 2 % 2 == 1 && e3 / 2 % 2 == 1, e4 / 4 % 2 == 1 && e3 / 4 % 2 == 1;
    var w2, u2 := w3 && e2 / 2 % 2 == 1, u3 && e2 / 4 % 2 == 1;
    if e4 % 2 == 0 || e3 % 2 == 0 then None
    else if e3 / 128 % 2 == 1 then Some(Found(e3, w3, u3))
    else if e2 % 2 == 0 then None
    else if e2 / 128 % 2 == 1 then Some(Found(e2, w2, u2))
    else if e1 % 2 == 0 then None
    else Some(Found(e1, w2 && e1 / 2 % 2 == 1, u2 && e1 / 4 % 2 == 1))
  }

  /** An entry for a table is present and writable, but neither for user mode nor large. */
  lemma TableBits(frame: nat)
    ensures var e := TableEntry(frame);
            && e % 2 == 1 && e / 2 % 2 == 1 && e / 4 % 2 == 0 && e / 128 % 2 == 0 && e / 0x1000 == frame
  {
    LowFlags(frame, 3);
    var e := TableEntry(frame);
    assert e / 2 == 2 * (1024 * frame) + 1 && e / 4 == 2 * (512 * frame);
    EvenPlus(1024 * frame, 1);
    EvenPlus(512 * frame, 0);
  }

  lemma TableAt(arch: Arch, m: Mem, f: nat, i: nat)
    requires Inv(arch, m) && f in m.nodes && m.nodes[f].height >= 2 && i < Radix(arch)
    ensures var e := Entry(m.ram, f, i);
            && (e % 2 == 0 ==> e == 0)
            && (Child(arch, m.nodes[f].height, e) ==>
                  && e % 2 == 1 && e / 2 % 2 == 1 && e / 4 % 2 == 0 && e / 128 % 2 == 0
                  && FrameOf(e) == e / 0x1000 && FrameOf(e) in m.nodes
                  && m.nodes[FrameOf(e)].height == m.nodes[f].height - 1)
  {
    hide TableEntry;
    var e := Entry(m.ram, f, i);
    ChildOf(arch, m, f, i);
    if Child(arch, m.nodes[f].height, e) {
      TableBits(FrameOf(e));
    }
  }

  /** On x86 the processor finds what the lookup finds.  It may write exactly if the page's own entry
    says so, and never reaches the page from user mode. */
  lemma Walk86Is(m: Mem, d: nat, virt: nat)
    requires Inv(X86, m) && d in m.nodes && m.nodes[d].height == 2 && virt < 0x1_0000_0000
    ensures var w, o := Walk86(m.ram, d, virt), Lookup(X86, m.ram, d, [virt / 0x40_0000, virt / 0x1000 % 1024]);
            && (o == None <==> w == None)
            && (w.Some? ==> w.value == Found(o.value, o.value / 2 % 2 == 1, false))
  {
    hide Inv;
    var p := [virt / 0x40_0000, virt / 0x1000 % 1024];
    var e := Entry(m.ram, d, p[0]);
    TableAt(X86, m, d, p[0]);
    assert p[1..] == [p[1]];
    if Child(X86, 2, e) {
      ChildOf(X86, m, FrameOf(e), p[1]);
    }
  }

  lemma LastLevels(m: Mem, t: nat, i: nat, j: nat)
    requires Inv(X64, m) && t in m.nodes && m.nodes[t].height == 2 && i < 512 && j < 512
    ensures var e2 := Entry(m.ram, t, i);
            var e1 := Entry(m.ram, e2 / 0x1000, j);
            && (e2 / 128 % 2 == 0 && e2 % 2 == 1 ==> e2 / 2 % 2 == 1 && e2 / 4 % 2 == 0)
            && Lookup(X64, m.ram, t, [i, j])
               == if e2 % 2 == 0 then None else if e2 / 128 % 2 == 1 then Some(e2)
                  else if e1 % 2 == 0 then None else Some(e1)
  {
    hide Inv;
    TableAt(X64, m, t, i);
    assert [i, j][1..] == [j];
    var e2 := Entry(m.ram, t, i);
    if Child(X64, 2, e2) {
      ChildOf(X64, m, FrameOf(e2), j);
    }
  }

  /** So does it on x86_64, for pages of either size. */
  lemma Walk64Is(m: Mem, d: nat, virt: nat)
    requires Inv(X64, m) && d in m.nodes && m.nodes[d].height == 4
    ensures var p := [virt / 0x80_0000_0000 % 512, virt / 0x4000_0000 % 512, virt / 0x20_0000 % 512,
                      virt / 0x1000 % 512];
            var w, o := Walk64(m.ram, d, virt), Lookup(X64, m.ram, d, p);
            && (o == None <==> w == None)
            && (w.Some? ==> w.value == Found(o.value, o.value / 2 % 2 == 1, false))
  {
    hide Inv;
    var p := [virt / 0x80_0000_0000 % 512, virt / 0x4000_0000 % 512, virt / 0x20_0000 % 512, virt / 0x1000 % 512];
    assert p[1..] == [p[1], p[2], p[3]] && p[1..][1..] == [p[2], p[3]] && p[1..][1..][1..] == [p[3]];
    TableAt(X64, m, d, p[0]);
    var e4 := Entry(m.ram, d, p[0]);
    if Child(X64, 4, e4) {
      TableAt(X64, m, e4 / 0x1000, p[1]);
      var e3 := Entry(m.ram, e4 / 0x1000, p[1]);
      if Child(X64, 3, e3) {
        assert Lookup(X64, m.ram, d, p) == Lookup(X64, m.ram, e3 / 0x1000, [p[2], p[3]]);
        LastLevels(m, e3 / 0x1000, p[2], p[3]);
      }
    }
  }

  // ----- what a mapping leaves for the walk

  /** The walk finds what `map` was asked for: the bits of the address and of the flags, and bit 0.
    Writing is allowed if they say so, user mode never. */
  ghost predicate Carries(w: Found, phys: nat, flags: nat) {
    && (forall k: nat :: Bit(w.entry, k) <==> Bit(phys, k) || Bit(flags, k) || k == 0)
    && (w.writes <==> Bit(phys, 1) || Bit(flags, 1))
    && !w.user
    && (phys % 4096 == 0 && flags < 4096 ==>
          && w.entry - w.entry % 4096 == phys
          && w.entry % 4096 == (if flags % 2 == 1 then flags else flags + 1)
          && (w.writes <==> flags / 2 % 2 == 1))
  }

  lemma LeafCarries(phys: nat, flags: nat)
    ensures var e := LeafFor(phys, flags);
            Carries(Found(e, e / 2 % 2 == 1, false), phys, flags)
  {
    hide Bit, LeafFor;
    var e := LeafFor(phys, flags);
    forall k: nat
      ensures Bit(e, k) <==> Bit(phys, k) || Bit(flags, k) || k == 0
    {
      LeafForBits(phys, flags, k);
    }
    EntryBits(e);
    EntryBits(flags);
    EntryBits(phys);
    if phys % 4096 == 0 && flags < 4096 {
      LeafForParts(phys, flags);
    }
  }
}
