/** x86 virtual memory: page structures are reached only through the ten temporary slots. */
module VirtualMemory86Model {
  import opened Options
  import opened FrameMap
  import opened PhysicalMemoryModel
  import opened Entries
  import opened PageTree
  import opened FrameStoreModel
  import opened TempSlots
  import opened AddressSpaces
  import opened PagingWalk

  /** Virtual address of slot `i`: the last ten pages of the 32-bit address space. */
  function SlotAddr(i: nat): nat {
    0xFFFF_6000 + 0x1000 * i
  }

  class VirtualMemory {
    const ram: FrameStore
    const pm: PhysicalMemory
    const tempMappings: array<nat>
    ghost var nodes: map<nat, Node>

    ghost function State(): Mem
      reads this, ram, ram.cells, pm, pm.spBitmap, pm.spBitmap.memory
    {
      Mem(ram.View(), pm.Taken(), nodes)
    }

    ghost function System(): Sys
      reads this, ram, ram.cells, pm, pm.spBitmap, pm.spBitmap.memory, tempMappings
    {
      Sys(State(), Held(tempMappings[..]))
    }

    /** The parts fit together; nothing is said about the page tables. */
    ghost predicate Wired()
      reads this, ram, pm, pm.spBitmap, pm.spBitmap.memory, tempMappings
    {
      && ram.Valid() && ram.arch == X86 && pm.Valid()
      && ram.cells.Length0 == pm.frames
      && tempMappings.Length == 10 && SlotsOk(tempMappings[..])
      && tempMappings as object != pm.spBitmap.memory as object
    }

    ghost predicate Valid()
      reads this, ram, ram.cells, pm, pm.spBitmap, pm.spBitmap.memory, tempMappings
    {
      Wired() && SysInv(System())
    }

    constructor (ram: FrameStore, pm: PhysicalMemory, tempMappings: array<nat>)
      requires ram.Valid() && ram.arch == X86 && pm.Valid() && ram.cells.Length0 == pm.frames
      requires tempMappings as object != pm.spBitmap.memory as object
      requires tempMappings.Length == 10 && forall i :: 0 <= i < 10 ==> tempMappings[i] == 0
      ensures Valid() && nodes == map[] && Held(tempMappings[..]) == {}
      ensures this.ram == ram && this.pm == pm && this.tempMappings == tempMappings
    {
      this.ram, this.pm, this.tempMappings, nodes := ram, pm, tempMappings, map[];
      new;
      EmptySlots(tempMappings[..]);
    }

    // ----- slots

    /** The frame seen through slot address `virt`. */
    function Window(virt: nat): nat
      requires tempMappings.Length == 10
      requires 0xFFFF_6000 <= virt <= 0xFFFF_F000
      reads tempMappings
    {
      FrameOf(tempMappings[(virt - 0xFFFF_6000) / 0x1000])
    }

    /** `virt` is the address of the slot that holds `page`. */
    ghost predicate Shows(virt: nat, page: nat)
      reads tempMappings
    {
      && tempMappings.Length == 10
      && exists i :: 0 <= i < 10 && virt == SlotAddr(i) && tempMappings[i] != 0 && FrameOf(tempMappings[i]) == page
    }

    lemma ShowsWindow(virt: nat, page: nat)
      requires Shows(virt, page)
      ensures 0xFFFF_6000 <= virt <= 0xFFFF_F000 && Window(virt) == page
      ensures page in Held(tempMappings[..])
    {
      var i :| 0 <= i < 10 && virt == SlotAddr(i) && tempMappings[i] != 0 && FrameOf(tempMappings[i]) == page;
      SlotHolds(tempMappings[..], i);
    }

    /** `pstructMap`; with no slot left it halts the kernel. */
    method PstructMap(phys: nat) returns (virt: nat)
      requires tempMappings.Length == 10 && SlotsOk(tempMappings[..]) && phys % 4096 == 0
      requires |Held(tempMappings[..]) + {phys / 4096}| <= 10
      modifies tempMappings
      ensures SlotsOk(tempMappings[..])
      ensures Held(tempMappings[..]) == old(Held(tempMappings[..])) + {phys / 4096}
      ensures Shows(virt, phys / 4096)
      ensures forall v, p :: old(Shows(v, p)) ==> Shows(v, p)
      ensures exists i :: 0 <= i < 10 && virt == 0xFFFF_6000 + 0x1000 * i && tempMappings[i] == phys + 0x103
      ensures forall i :: 0 <= i < 10 && tempMappings[i] != old(tempMappings[i]) ==>
                old(tempMappings[i]) == 0 && virt == 0xFFFF_6000 + 0x1000 * i
    {
      hide FrameOf, SlotEntry, Held, SlotsOk;
      SlotBits(phys / 4096);
      ghost var slots := tempMappings[..];
      var i := 0;
      while i < 10
        invariant i <= 10 && tempMappings[..] == slots
        invariant forall j :: 0 <= j < i ==> !(tempMappings[j] != 0 && FrameOf(tempMappings[j]) == phys / 4096)
      {
        SlotHolds(slots, i);
        if tempMappings[i] % 2 == 1 && FrameOf(tempMappings[i]) == phys / 4096 {
          assert tempMappings[i] != 0;
          assert Held(slots) == Held(slots) + {phys / 4096};
          return SlotAddr(i);
        }
        assert tempMappings[i] != 0 ==> Present(tempMappings[i]) by {
          if tempMappings[i] != 0 {
            SlotEntryIs(FrameOf(tempMappings[i]));
          }
        }
        i := i + 1;
      }
      NotHeld(slots, phys / 4096);
      FreeSlot(slots);
      assert |Held(slots) + {phys / 4096}| == |Held(slots)| + 1;
      i := 0;
      while i < 10
        invariant i <= 10 && tempMappings[..] == slots
        invariant forall j :: 0 <= j < i ==> tempMappings[j] != 0
      {
        if tempMappings[i] == 0 {
          FillSlot(slots, i, phys / 4096);
          SlotEntryIs(phys / 4096);
          tempMappings[i] := SlotEntry(phys / 4096);
          assert tempMappings[..] == slots[i := SlotEntry(phys / 4096)];
          return SlotAddr(i);
        }
        i := i + 1;
      }
      assert false;
    }

    /** `pstructUnmap`. */
    method PstructUnmap(virt: nat, ghost page: nat)
      requires tempMappings.Length == 10 && SlotsOk(tempMappings[..]) && Shows(virt, page)
      modifies tempMappings
      ensures SlotsOk(tempMappings[..])
      ensures Held(tempMappings[..]) == old(Held(tempMappings[..])) - {page}
      ensures forall v, p :: old(Shows(v, p)) && p != page ==> Shows(v, p)
      ensures forall i :: 0 <= i < 10 ==>
                tempMappings[i] == if virt == 0xFFFF_6000 + 0x1000 * i then 0 else old(tempMappings[i])
    {
      hide FrameOf, Held, SlotsOk;
      ghost var slots := tempMappings[..];
      var i := 0;
      while i < 10
        invariant i <= 10 && tempMappings[..] == slots
        invariant forall j :: 0 <= j < i ==> SlotAddr(j) != virt
      {
        if SlotAddr(i) == virt {
          ClearSlot(slots, i);
          tempMappings[i] := 0;
          assert tempMappings[..] == slots[i := 0];
          return;
        }
        i := i + 1;
      }
      assert false;
    }

    // ----- page structures

    /** `allocatePStructAny`: a frame, zeroed through a slot that is free again afterwards. */
    method AllocatePStructAny() returns (addr: nat)
      requires Wired() && Inv(X86, State()) && HasFrame(pm.Taken())
      requires Held(tempMappings[..]) <= nodes.Keys && |Held(tempMappings[..])| < 10
      modifies ram.cells, pm.spBitmap.memory, tempMappings
      ensures Wired()
      ensures addr == 4096 * LowestFrame(old(pm.Taken())) && LowestFrame(old(pm.Taken())) < ram.cells.Length0
      ensures pm.Taken() == old(pm.Taken())[LowestFrame(old(pm.Taken())) := true]
      ensures ram.View() == old(ram.View())[LowestFrame(old(pm.Taken())) := EmptyTable(X86)]
      ensures Held(tempMappings[..]) == old(Held(tempMappings[..]))
      ensures forall v, p :: old(Shows(v, p)) && p in nodes ==> Shows(v, p)
    {
      hide Inv, Follows, Granted, Refused, Ends, Held, SlotsOk, Shows, Window;
      ghost var p, slots := LowestFrame(pm.Taken()), tempMappings[..];
      ghost var held := Held(slots);
      OneFrame(pm.Taken());
      FreeFrame(X86, State());
      FreeIsNoNode(State(), p);
      PageIsPower();
      addr := pm.AllocateAligned(4096, 4096);
      assert tempMappings[..] == slots;
      assert |held + {p}| == |held| + 1;
      var virt := PstructMap(addr);
      ShowsWindow(virt, p);
      ram.Zero(Window(virt));
      PstructUnmap(virt, p);
      assert held + {p} - {p} == held;
    }

    /** `freePStructAny`. */
    method FreePStructAny(addr: nat)
      requires FrameOf(addr) < pm.spBitmap.Size()
      modifies pm.spBitmap.memory
      ensures pm.Taken() == if addr == 0 then old(pm.Taken()) else old(pm.Taken())[FrameOf(addr) := false]
    {
      if addr == 0 {
        return;
      }
      pm.Free(addr - addr % 4096, 4096);
      assert pm.Taken() == old(pm.Taken())[addr / 4096 := false];
    }

    /** Makes the table for the absent entry `pde` of directory `d`, seen at `pd`. */
    method MakeTable(pd: nat, pde: nat, ghost d: nat)
      requires Wired() && Inv(X86, State()) && d in nodes && nodes[d].height == 2 && pde < 1024
      requires Shows(pd, d) && !Present(Entry(ram.View(), d, pde)) && HasFrame(pm.Taken())
      requires Held(tempMappings[..]) <= nodes.Keys && |Held(tempMappings[..])| < 10
      modifies this`nodes, ram.cells, pm.spBitmap.memory, tempMappings
      ensures Wired() && Inv(X86, State()) && State() == WithChild(X86, old(State()), d, pde)
      ensures Held(tempMappings[..]) == old(Held(tempMappings[..]))
      ensures forall v, p :: old(Shows(v, p)) && p in old(nodes) ==> Shows(v, p)
      ensures forall g :: g in old(nodes) ==> g in nodes && nodes[g] == old(nodes)[g]
    {
      hide Inv, Follows, TableEntry, Entry, FrameOf, Held, SlotsOk, Shows, Window, Present;
      ghost var m, p := State(), LowestFrame(pm.Taken());
      FreeFrame(X86, m);
      NodeFits(X86, m, d);
      NewTableInv(X86, m, d, pde, p);
      NewTableExtends(X86, m, d, pde, p);
      var addr := AllocatePStructAny();
      ShowsWindow(pd, d);
      ram.Write(Window(pd), pde, TableEntry(addr / 4096));
      nodes := nodes[p := Node(1, d, pde)];
      assert State() == NewTable(X86, m, d, pde, p);
    }

    /** Puts the table behind entry `pde` of directory `d`, seen at `pd`, into a slot. */
    method ShowTable(pd: nat, pde: nat, ghost d: nat, ghost page: nat) returns (pt: nat)
      requires Wired() && Inv(X86, State()) && d in Spaces(State()) && page < 0x10_0000 && pde == page / 1024
      requires Shows(pd, d) && TablePresent(State(), d, page) && |Held(tempMappings[..])| < 10
      modifies tempMappings
      ensures Wired() && State() == old(State()) && |Held(tempMappings[..])| <= 10
      ensures var t := TableOf(State(), d, page);
              && t in nodes && nodes[t].height == 1 && Shows(pt, t)
              && Held(tempMappings[..]) == old(Held(tempMappings[..])) + {t}
      ensures Shows(pd, d)
    {
      hide Inv, Entry, FrameOf, Held, SlotsOk, Shows, Window, Present, Passes, Lookup, Spaces;
      ghost var t, held := TableOf(State(), d, page), Held(tempMappings[..]);
      SpaceIsNode(State(), d);
      NodeFits(X86, State(), d);
      TableReached(State(), d, page);
      ShowsWindow(pd, d);
      assert |held + {t}| <= |held| + 1;
      pt := PstructMap(4096 * FrameOf(ram.Read(Window(pd), pde)));
    }

    /** `splitVirtualAndMap`: directory and table of an address, each in a slot.  When the table
      has to be present but is not, the directory's slot stays in use. */
    method SplitVirtualAndMap(space: nat, virt: nat, forcePresent: bool) returns (ok: bool, pd: nat, pt: nat)
      requires Valid() && space % 4096 == 0 && virt < 0x1_0000_0000
      requires space / 4096 in Spaces(State())
      requires forcePresent || TablePresent(State(), space / 4096, virt / 4096) || HasFrame(pm.Taken())
      requires |Held(tempMappings[..]) + {space / 4096}|
               < (if forcePresent && !TablePresent(State(), space / 4096, virt / 4096) then 11 else 10)
      modifies this`nodes, ram.cells, pm.spBitmap.memory, tempMappings
      ensures Wired() && Inv(X86, State()) && |Held(tempMappings[..])| <= 10
      ensures State() == if forcePresent then old(State())
                         else WithChild(X86, old(State()), space / 4096, virt / 4096 / 1024)
      ensures ok <==> !forcePresent || old(TablePresent(State(), space / 4096, virt / 4096))
      ensures forall g :: g in old(nodes) ==> g in nodes && nodes[g] == old(nodes)[g]
      ensures Shows(pd, space / 4096)
      ensures !ok ==> Held(tempMappings[..]) == old(Held(tempMappings[..])) + {space / 4096}
      ensures ok ==> var t := TableOf(State(), space / 4096, virt / 4096);
                && t in nodes && nodes[t].height == 1 && Shows(pt, t)
                && Held(tempMappings[..]) == old(Held(tempMappings[..])) + {space / 4096, t}
    {
      hide Inv, Follows, TableEntry, Entry, FrameOf, Held, SlotsOk, Shows, Window, Present, Passes, Lookup;
      hide WithChild, HasFrame, Spaces;
      ghost var d, m, held := space / 4096, State(), Held(tempMappings[..]);
      SpaceFacts(System(), d);
      Indices(virt);
      var pde := virt / 0x40_0000 % 1024;
      NodeFits(X86, m, d);
      ChildMade(m, d, pde);
      pd := PstructMap(space);
      ShowsWindow(pd, d);
      if !Present(ram.Read(Window(pd), pde)) {
        if forcePresent {
          return false, pd, 0;
        }
        MakeTable(pd, pde, d);
      }
      SpaceStays(m, State(), d);
      pt := ShowTable(pd, pde, d, virt / 4096);
      HeldPlus(held, d, TableOf(State(), d, virt / 4096));
      ok := true;
    }

    // ----- operations

    /** Of the pages held during an operation, releasing table and directory leaves those held before,
      without the directory. */
    lemma HeldAfter(held: set<nat>, d: nat, t: nat)
      requires t !in held && t != d
      ensures held + {d, t} - {t} - {d} == held - {d}
    {
    }

    /** `map`, for a page that does not halt it. */
    method Map(space: nat, virt: nat, phys: nat, flags: nat) returns (ok: bool)
      requires Valid() && space % 4096 == 0 && virt < 0x1_0000_0000
      requires Enabled(System(), Op.Map(space / 4096, virt / 4096, phys, flags))
      requires SlotsSuffice(System(), Op.Map(space / 4096, virt / 4096, phys, flags))
      modifies this`nodes, ram.cells, pm.spBitmap.memory, tempMappings
      ensures ok && Valid()
      ensures System() == Step(old(System()), Op.Map(space / 4096, virt / 4096, phys, flags))
      ensures var w := Walk86(ram.View(), space / 4096, virt);
              w.Some? && Carries(w.value, phys, flags)
      ensures Held(tempMappings[..]) == old(Held(tempMappings[..])) - {space / 4096}
    {
      hide Inv, Entry, FrameOf, Held, SlotsOk, Shows, Window, Present, Mappable, WithChild, Step, Mapped, HasFrame;
      hide LowestFrame, Missing, Open, CanTake, Walk86, Carries;
      ghost var s, d, page := System(), space / 4096, virt / 4096;
      Indices(virt);
      MapPlan(s, d, page, phys, flags);
      var _, pd, pt := SplitVirtualAndMap(space, virt, false);
      ghost var t := TableOf(State(), d, page);
      ShowsWindow(pt, t);
      NodeFits(X86, State(), t);
      assert t != d && t !in s.held;
      var pte := virt / 0x1000 % 1024;
      ram.Write(Window(pt), pte, LeafFor(phys, flags));
      PstructUnmap(pt, t);
      PstructUnmap(pd, d);
      HeldAfter(s.held, d, t);
      assert State() == Step(s, Op.Map(d, page, phys, flags)).mem;
      assert Held(tempMappings[..]) == Step(s, Op.Map(d, page, phys, flags)).held;
      MapWalks(s, d, virt, phys, flags);
      ok := true;
    }

    /** `unmap`; a missing table halts the kernel. */
    method Unmap(space: nat, virt: nat)
      requires Valid() && space % 4096 == 0 && virt < 0x1_0000_0000
      requires Enabled(System(), Op.Unmap(space / 4096, virt / 4096))
      requires SlotsSuffice(System(), Op.Unmap(space / 4096, virt / 4096))
      modifies this`nodes, ram.cells, pm.spBitmap.memory, tempMappings
      ensures Valid()
      ensures System() == Step(old(System()), Op.Unmap(space / 4096, virt / 4096))
      ensures Walk86(ram.View(), space / 4096, virt) == None
      ensures Held(tempMappings[..]) == old(Held(tempMappings[..])) - {space / 4096}
    {
      hide Inv, Entry, FrameOf, Held, SlotsOk, Shows, Window, Present, WithChild, Step, Walk86;
      ghost var s, d, page := System(), space / 4096, virt / 4096;
      Indices(virt);
      UnmapPlan(s, d, page);
      var _, pd, pt := SplitVirtualAndMap(space, virt, true);
      ghost var t := TableOf(State(), d, page);
      ShowsWindow(pt, t);
      NodeFits(X86, State(), t);
      assert t != d && t !in s.held;
      var pte := virt / 0x1000 % 1024;
      ram.Write(Window(pt), pte, 0);
      PstructUnmap(pt, t);
      PstructUnmap(pd, d);
      HeldAfter(s.held, d, t);
      UnmapWalks(s, d, virt);
    }

    /** `getMappedAddr`; a missing table answers 0 and leaves the directory in its slot. */
    method GetMappedAddr(space: nat, virt: nat) returns (mapped: nat)
      requires Valid() && space % 4096 == 0 && virt < 0x1_0000_0000
      requires Enabled(System(), Op.GetMapped(space / 4096, virt / 4096))
      requires SlotsSuffice(System(), Op.GetMapped(space / 4096, virt / 4096))
      modifies this`nodes, ram.cells, pm.spBitmap.memory, tempMappings
      ensures Valid()
      ensures System() == Step(old(System()), Op.GetMapped(space / 4096, virt / 4096))
      ensures var w := Walk86(old(ram.View()), space / 4096, virt);
              mapped == if w.Some? then w.value.entry - w.value.entry % 4096 else 0
      ensures Held(tempMappings[..]) == if old(TablePresent(State(), space / 4096, virt / 4096)) then
                                          old(Held(tempMappings[..])) - {space / 4096}
                                        else old(Held(tempMappings[..])) + {space / 4096}
    {
      hide Inv, Entry, FrameOf, Held, SlotsOk, Shows, Window, Present, WithChild, Lookup, Step, TablePresent, Walk86;
      ghost var s, d, page := System(), space / 4096, virt / 4096;
      Indices(virt);
      LookupPlan(s, d, page, virt);
      var ok, pd, pt := SplitVirtualAndMap(space, virt, true);
      if !ok {
        return 0;
      }
      ghost var t := TableOf(State(), d, page);
      ShowsWindow(pt, t);
      NodeFits(X86, State(), t);
      assert t != d && t !in s.held;
      var pte := virt / 0x1000 % 1024;
      mapped := 4096 * FrameOf(ram.Read(Window(pt), pte));
      PstructUnmap(pt, t);
      PstructUnmap(pd, d);
      HeldAfter(s.held, d, t);
    }

    /** `newVSpace`, without the entry that links the kernel in. */
    method NewVSpace() returns (space: nat)
      requires Valid() && Enabled(System(), Op.NewSpace) && SlotsSuffice(System(), Op.NewSpace)
      modifies this`nodes, ram.cells, pm.spBitmap.memory, tempMappings
      ensures Valid()
      ensures System() == Step(old(System()), Op.NewSpace)
      ensures Held(tempMappings[..]) == old(Held(tempMappings[..]))
      ensures space % 4096 == 0 && space / 4096 == LowestFrame(old(pm.Taken()))
      ensures space / 4096 in Spaces(State()) && space / 4096 !in old(Spaces(State()))
    {
      hide Inv, Held, SlotsOk, Shows, LowestFrame, EmptyTable, Step, Enabled, Spaces;
      ghost var s := System();
      NewPlan(s);
      space := AllocatePStructAny();
      nodes := nodes[space / 4096 := Node(2, 0, 0)];
    }

    /** One round of the scan: gives back the table behind entry `pde`, if there is one. */
    method FreeTableAt(pd: nat, pde: nat, ghost m: Mem, ghost d: nat, ghost freed: seq<nat>)
      returns (ghost freed': seq<nat>)
      requires Wired() && Inv(X86, m) && d in Spaces(m) && Shows(pd, d) && pde < 1024
      requires ram.View() == m.ram && freed == TablesBelow(m, d, pde)
      requires pm.Taken() == Cleared(m.taken, Elements(freed))
      modifies pm.spBitmap.memory
      ensures pm.Valid() && freed' == TablesBelow(m, d, pde + 1)
      ensures pm.Taken() == Cleared(m.taken, Elements(freed'))
    {
      hide Inv, Entry, FrameOf, Held, SlotsOk, Shows, Window, Present, Spaces, Elements;
      SpaceIsNode(m, d);
      NodeFits(X86, m, d);
      ShowsWindow(pd, d);
      NextTable(m, d, pde);
      freed' := freed;
      if Present(ram.Read(Window(pd), pde)) {
        ghost var t := FrameOf(ram.Read(Window(pd), pde));
        NodeFits(X86, m, t);
        ClearedMore(m.taken, freed, t);
        FreePStructAny(ram.Read(Window(pd), pde));
        freed' := freed + [t];
      }
    }

    /** The scan of `deleteVSpace`: gives back the table behind each present entry. */
    method FreeTables(pd: nat, ghost d: nat) returns (ghost freed: seq<nat>)
      requires Wired() && Inv(X86, State()) && d in Spaces(State()) && Shows(pd, d)
      modifies pm.spBitmap.memory
      ensures Wired() && freed == TablesBelow(old(State()), d, 1024)
      ensures pm.Taken() == Cleared(old(pm.Taken()), Elements(freed))
    {
      hide Inv, Held, SlotsOk, Shows, Spaces, Elements;
      ghost var m := State();
      freed := [];
      NoneCleared(m.taken);
      var pde := 0;
      while pde < 1024
        invariant pde <= 1024 && pm.Valid()
        invariant freed == TablesBelow(m, d, pde)
        invariant pm.Taken() == Cleared(m.taken, Elements(freed))
      {
        freed := FreeTableAt(pd, pde, m, d, freed);
        pde := pde + 1;
      }
    }

    /** Releases the slot of a directory and gives back its frame, after those in `freed`. */
    method FreeDirectory(space: nat, pd: nat, ghost taken: seq<bool>, ghost freed: seq<nat>)
      returns (ghost freed': seq<nat>)
      requires Wired() && 0 < space && space % 4096 == 0 && space / 4096 < |taken| && Shows(pd, space / 4096)
      requires space / 4096 < pm.frames && pm.Taken() == Cleared(taken, Elements(freed))
      modifies pm.spBitmap.memory, tempMappings
      ensures Wired() && freed' == freed + [space / 4096]
      ensures pm.Taken() == Cleared(taken, Elements(freed'))
      ensures Held(tempMappings[..]) == old(Held(tempMappings[..])) - {space / 4096}
    {
      hide Held, SlotsOk, Shows, Window, Elements, Cleared;
      ClearedMore(taken, freed, space / 4096);
      freed' := freed + [space / 4096];
      PstructUnmap(pd, space / 4096);
      FreePStructAny(space);
    }

    /** `deleteVSpace`: gives back the directory and each of its tables, every one once. */
    method DeleteVSpace(space: nat) returns (ghost freed: seq<nat>)
      requires Valid() && space % 4096 == 0
      requires Enabled(System(), Op.DeleteSpace(space / 4096))
      requires SlotsSuffice(System(), Op.DeleteSpace(space / 4096))
      modifies this`nodes, ram.cells, pm.spBitmap.memory, tempMappings
      ensures Valid()
      ensures System() == Step(old(System()), Op.DeleteSpace(space / 4096))
      ensures Held(tempMappings[..]) == old(Held(tempMappings[..])) - {space / 4096}
      ensures Elements(freed) == Owned(old(State()), space / 4096)
      ensures forall i, j :: 0 <= i < j < |freed| ==> freed[i] != freed[j]
    {
      hide Inv, Entry, Held, SlotsOk, Shows, Window, Present, Step, Owned, Elements, TablesBelow, Child;
      hide Enabled, SlotsSuffice, Spaces, Cleared;
      ghost var s, d := System(), space / 4096;
      DeleteFits(s, d);
      DeletePlan(s, d);
      var pd := PstructMap(space);
      freed := FreeTables(pd, d);
      freed := FreeDirectory(space, pd, s.mem.taken, freed);
      nodes := nodes - Owned(s.mem, d);
      assert s.held + {d} - {d} == s.held - {d};
    }
  }

  lemma SpaceIsNode(m: Mem, d: nat)
    requires d in Spaces(m)
    ensures d in m.nodes && m.nodes[d].height == 2
  {
  }

  /** Tables of directory `d` below entry `n`, in order. */
  ghost function TablesBelow(m: Mem, d: nat, n: nat): seq<nat> {
    if n == 0 then []
    else if Present(Entry(m.ram, d, n - 1)) then TablesBelow(m, d, n - 1) + [FrameOf(Entry(m.ram, d, n - 1))]
    else TablesBelow(m, d, n - 1)
  }

  ghost function Cleared(taken: seq<bool>, frames: set<nat>): (r: seq<bool>)
    ensures |r| == |taken|
    ensures forall k :: 0 <= k < |r| ==> r[k] == (taken[k] && k !in frames)
  {
    seq(|taken|, k requires 0 <= k < |taken| => taken[k] && k !in frames)
  }

  lemma NoneCleared(taken: seq<bool>)
    ensures Cleared(taken, Elements([])) == taken
  {
  }

  lemma ClearedMore(taken: seq<bool>, freed: seq<nat>, t: nat)
    requires t < |taken|
    ensures Cleared(taken, Elements(freed + [t])) == Cleared(taken, Elements(freed))[t := false]
  {
    assert Elements(freed + [t]) == Elements(freed) + {t};
  }

  lemma {:induction false} TablesBelowAre(m: Mem, d: nat, n: nat)
    requires Inv(X86, m) && d in Spaces(m) && n <= 1024
    ensures forall t :: t in TablesBelow(m, d, n)
              <==> t in m.nodes && m.nodes[t].height == 1 && m.nodes[t].parent == d && m.nodes[t].index < n
    ensures forall i, j :: 0 <= i < j < |TablesBelow(m, d, n)| ==> TablesBelow(m, d, n)[i] != TablesBelow(m, d, n)[j]
  {
    hide Entry, Present, FrameOf, Inv;
    if n == 0 {
    } else {
      TablesBelowAre(m, d, n - 1);
      NextTable(m, d, n - 1);
      forall t | t in m.nodes && m.nodes[t].height == 1 && m.nodes[t].parent == d && m.nodes[t].index == n - 1
        ensures Present(Entry(m.ram, d, n - 1)) && FrameOf(Entry(m.ram, d, n - 1)) == t
      {
        ParentOf(m, t);
      }
    }
  }

  lemma ParentOf(m: Mem, t: nat)
    requires Inv(X86, m) && t in m.nodes && m.nodes[t].height == 1
    ensures var e := Entry(m.ram, m.nodes[t].parent, m.nodes[t].index);
            m.nodes[t].index < 1024 && Present(e) && FrameOf(e) == t
  {
  }

  lemma DeleteFits(s: Sys, d: nat)
    requires SysInv(s) && Enabled(s, Op.DeleteSpace(d))
    ensures d in Spaces(s.mem) && 0 < d < |s.mem.ram| <= |s.mem.taken|
    ensures SlotsSuffice(s, Op.DeleteSpace(d)) ==> |s.held + {d}| <= 10
  {
    hide Inv;
    NodeFits(X86, s.mem, d);
  }

  /** What the scan of a directory collects, together with the directory, is all it owns. */
  lemma DeletePlan(s: Sys, d: nat)
    requires SysInv(s) && Enabled(s, Op.DeleteSpace(d))
    ensures var freed := TablesBelow(s.mem, d, 1024) + [d];
            && Elements(freed) == Owned(s.mem, d)
            && forall i, j :: 0 <= i < j < |freed| ==> freed[i] != freed[j]
    ensures var s' := Step(s, Op.DeleteSpace(d));
            && SysInv(s')
            && s' == Sys(Mem(s.mem.ram, Cleared(s.mem.taken, Owned(s.mem, d)), s.mem.nodes - Owned(s.mem, d)),
                         s.held - {d})
  {
    hide Inv, TablesBelow;
    StepKeeps(s, Op.DeleteSpace(d));
    TablesBelowAre(s.mem, d, 1024);
    forall t | t in s.mem.nodes && s.mem.nodes[t].height == 1
      ensures s.mem.nodes[t].index < 1024
    {
      ParentOf(s.mem, t);
    }
  }

  /** The table behind a present entry, and its number being non-zero. */
  lemma NextTable(m: Mem, d: nat, pde: nat)
    requires Inv(X86, m) && d in Spaces(m) && pde < 1024
    ensures Present(Entry(m.ram, d, pde)) ==>
              && Entry(m.ram, d, pde) != 0 && FrameOf(Entry(m.ram, d, pde)) in m.nodes
              && m.nodes[FrameOf(Entry(m.ram, d, pde))] == Node(1, d, pde)
  {
    ChildOf(X86, m, d, pde);
  }

  /** A new directory, in a frame that was no space before. */
  lemma NewPlan(s: Sys)
    requires SysInv(s) && Enabled(s, Op.NewSpace)
    ensures HasFrame(s.mem.taken) && s.held <= s.mem.nodes.Keys
    ensures var p, s' := LowestFrame(s.mem.taken), Step(s, Op.NewSpace);
            && p < |s.mem.ram| <= |s.mem.taken| && p !in Spaces(s.mem) && p in Spaces(s'.mem)
            && s' == Sys(Mem(s.mem.ram[p := EmptyTable(X86)], s.mem.taken[p := true],
                             s.mem.nodes[p := Node(2, 0, 0)]), s.held)
            && SysInv(s')
  {
    hide Inv, LowestFrame, HasFrame, EmptyTable;
    StepKeeps(s, Op.NewSpace);
    NewStep(s);
    NewSpaceFits(s.mem);
  }

  /** One unmapping, table found. */
  lemma UnmapPlan(s: Sys, d: nat, page: nat)
    requires SysInv(s) && Enabled(s, Op.Unmap(d, page))
    ensures var s' := Step(s, Op.Unmap(d, page));
            && s' == Sys(WriteEntry(s.mem, TableOf(s.mem, d, page), page % 1024, 0), s.held - {d})
            && SysInv(s')
  {
    hide Inv;
    StepKeeps(s, Op.Unmap(d, page));
  }

  /** One lookup, table found or not. */
  lemma LookupPlan(s: Sys, d: nat, page: nat, virt: nat)
    requires SysInv(s) && Enabled(s, Op.GetMapped(d, page)) && virt < 0x1_0000_0000 && page == virt / 4096
    ensures var s' := Step(s, Op.GetMapped(d, page));
            && SysInv(s') && s'.mem == s.mem
            && s'.held == if TablePresent(s.mem, d, page) then s.held - {d} else s.held + {d}
    ensures var w := Walk86(s.mem.ram, d, virt);
            (if TablePresent(s.mem, d, page) then
               4096 * FrameOf(Entry(s.mem.ram, TableOf(s.mem, d, page), page % 1024))
             else 0)
            == if w.Some? then w.value.entry - w.value.entry % 4096 else 0
  {
    hide Inv;
    Indices(virt);
    Walk86Is(s.mem, d, virt);
    StepKeeps(s, Op.GetMapped(d, page));
    if TablePresent(s.mem, d, page) {
      TableReached(s.mem, d, page);
      ChildOf(X86, s.mem, TableOf(s.mem, d, page), page % 1024);
    } else {
      NoTable(s.mem, d, page);
    }
  }

  /** Mapping on two levels: the table is made if it is missing, then its entry is written. */
  lemma MapPlan(s: Sys, d: nat, page: nat, phys: nat, flags: nat)
    requires SysInv(s) && Enabled(s, Op.Map(d, page, phys, flags))
    ensures TablePresent(s.mem, d, page) || HasFrame(s.mem.taken)
    ensures var m1 := WithChild(X86, s.mem, d, page / 1024);
            var s' := Step(s, Op.Map(d, page, phys, flags));
            && s' == Sys(WriteEntry(m1, TableOf(m1, d, page), page % 1024, LeafFor(phys, flags)), s.held - {d})
            && SysInv(s')
  {
    hide Inv;
    StepKeeps(s, Op.Map(d, page, phys, flags));
    var p := Path(page);
    var m1 := WithChild(X86, s.mem, d, p[0]);
    assert p[0] == page / 1024 && p[1] == page % 1024;
    var t := FrameOf(Entry(m1.ram, d, p[0]));
    assert WithTables(X86, s.mem, d, p, 1) == WithTables(X86, m1, t, p[1..], 1) == m1;
    assert TableFor(X86, s.mem, d, p, 1) == TableFor(X86, m1, t, p[1..], 1) == t;
  }

  /** What the processor finds at a page just mapped. */
  lemma MapWalks(s: Sys, d: nat, virt: nat, phys: nat, flags: nat)
    requires SysInv(s) && virt < 0x1_0000_0000 && Enabled(s, Op.Map(d, virt / 4096, phys, flags))
    ensures var w := Walk86(Step(s, Op.Map(d, virt / 4096, phys, flags)).mem.ram, d, virt);
            w.Some? && Carries(w.value, phys, flags)
  {
    hide Inv, Mappable, Mapped, LeafFor, Carries, Refines, PagesOf, Lookup;
    var op, a := Op.Map(d, virt / 4096, phys, flags), PagesOf(s.mem);
    StepKeeps(s, op);
    PagesOfRefines(s.mem);
    StepRefines(s, a, op);
    MapStep(s, d, virt / 4096, phys, flags);
    StepAnswers(s, a, op, d, virt);
    LeafCarries(phys, flags);
  }

  /** And at one just unmapped. */
  lemma UnmapWalks(s: Sys, d: nat, virt: nat)
    requires SysInv(s) && virt < 0x1_0000_0000 && Enabled(s, Op.Unmap(d, virt / 4096))
    ensures Walk86(Step(s, Op.Unmap(d, virt / 4096)).mem.ram, d, virt) == None
  {
    hide Inv, Refines, PagesOf, Lookup;
    var op, a := Op.Unmap(d, virt / 4096), PagesOf(s.mem);
    StepKeeps(s, op);
    PagesOfRefines(s.mem);
    StepRefines(s, a, op);
    UnmapStep(s, d, virt / 4096);
    StepAnswers(s, a, op, d, virt);
  }

  lemma StepAnswers(s: Sys, a: Pages, op: Op, d: nat, virt: nat)
    requires SysInv(s) && Enabled(s, op) && virt < 0x1_0000_0000
    requires SysInv(Step(s, op)) && Refines(Step(s, op).mem, AbsStep(a, op)) && d in Spaces(Step(s, op).mem)
    ensures var w, a', k := Walk86(Step(s, op).mem.ram, d, virt), AbsStep(a, op), (d, virt / 4096);
            w == if k in a' then Some(Found(a'[k], a'[k] / 2 % 2 == 1, false)) else None
  {
    hide Inv, Step, Lookup;
    Indices(virt);
    Walk86Is(Step(s, op).mem, d, virt);
    assert Answers(Step(s, op).mem, AbsStep(a, op), d, virt / 4096);
  }

  lemma ChildMade(m: Mem, d: nat, pde: nat)
    requires Inv(X86, m) && d in m.nodes && m.nodes[d].height == 2 && pde < 1024
    ensures Present(Entry(m.ram, d, pde)) ==> WithChild(X86, m, d, pde) == m
    ensures HasFrame(m.taken) ==> Present(Entry(WithChild(X86, m, d, pde).ram, d, pde))
  {
    if !Present(Entry(m.ram, d, pde)) && HasFrame(m.taken) {
      FreeFrame(X86, m);
      NewTableExtends(X86, m, d, pde, LowestFrame(m.taken));
      TableEntryIs(X86, LowestFrame(m.taken), 2);
    }
  }

  lemma Indices(virt: nat)
    requires virt < 0x1_0000_0000
    ensures virt / 4096 < 0x10_0000
    ensures virt / 0x40_0000 % 1024 == virt / 4096 / 1024 && virt / 0x1000 % 1024 == virt / 4096 % 1024
  {
  }

  lemma SpaceFacts(s: Sys, d: nat)
    requires SysInv(s) && d in Spaces(s.mem)
    ensures Inv(X86, s.mem) && d in s.mem.nodes && s.mem.nodes[d].height == 2
    ensures s.held + {d} <= s.mem.nodes.Keys
  {
  }

  lemma SpaceStays(m: Mem, m': Mem, d: nat)
    requires d in Spaces(m) && d in m'.nodes && m'.nodes[d] == m.nodes[d]
    ensures d in Spaces(m')
  {
  }

  lemma HeldPlus(held: set<nat>, d: nat, t: nat)
    ensures held + {d} + {t} == held + {d, t} && |held + {d} + {t}| <= |held + {d}| + 1
  {
  }

  lemma FreeIsNoNode(m: Mem, p: nat)
    requires Inv(X86, m) && p < |m.taken| && !m.taken[p]
    ensures p !in m.nodes
  {
  }

  lemma {:induction false} EmptySlots(slots: seq<nat>)
    requires forall i :: 0 <= i < |slots| ==> slots[i] == 0
    ensures SlotsOk(slots) && Held(slots) == {}
  {
    if slots == [] {
    } else {
      EmptySlots(slots[1..]);
    }
  }

  lemma NotHeld(slots: seq<nat>, page: nat)
    requires forall j :: 0 <= j < |slots| ==> !(slots[j] != 0 && FrameOf(slots[j]) == page)
    ensures page !in Held(slots)
  {
    if page in Held(slots) {
      var j := HeldSomewhere(slots, page);
    }
  }
}
