/** The break of a virtual zone, backed page by page with physical frames (x86: 4K pages). */
module BreakPageAllocatorModel {
  import opened Options
  import opened BitMapModel
  import opened FrameMap
  import opened PhysicalMemoryModel
  import opened Entries
  import opened PageTree
  import opened TempSlots
  import opened AddressSpaces
  import opened PagingWalk
  import opened BreakZone
  import ZoneWords
  import opened VirtualMemory86Model
  import BreakRule
  import Zones = ZoneManagerModel

  class BreakPageAllocator {
    const vm: VirtualMemory
    /** The current address space. */
    const space: nat
    const start: nat
    const end: nat
    /** Flags for every page, with the large bit where the allocator asks for large pages. */
    const flags: nat
    var brk: nat

    // the same in pages
    ghost const d: nat
    ghost const lo: nat
    ghost const hi: nat
    ghost var top: nat

    /** What all spaces map. */
    ghost function Maps(): Pages
      reads this, vm, vm.ram, vm.ram.cells, vm.pm, vm.pm.spBitmap, vm.pm.spBitmap.memory
    {
      PagesOf(vm.State())
    }

    ghost predicate Layout()
      reads this
    {
      && space == 4096 * d && start == 4096 * lo && end == 4096 * hi && brk == 4096 * top
      && flags < 4096 && hi < 0x10_0000
    }

    ghost predicate Valid()
      reads this, vm, vm.ram, vm.ram.cells, vm.pm, vm.pm.spBitmap, vm.pm.spBitmap.memory, vm.tempMappings
    {
      && Layout() && vm.Valid()
      && Zone(vm.System(), Maps(), d, lo, top, hi)
      && |vm.System().held + {d}| < 10
    }

    /** The zone is one of the table's, marked as used from now on; one in use already halts the
      kernel, and so does the large flag without large pages. */
    constructor (vm: VirtualMemory, space: nat, zones: array<Zones.Zone>, slot: nat, large: bool, flags: nat)
      requires vm.Valid() && space % 4096 == 0 && space / 4096 in Spaces(vm.State())
      requires slot < zones.Length && !zones[slot].use && (Large(flags) ==> large) && flags < 4096
      requires var z := zones[slot];
               && z.start % 4096 == 0 && z.end % 4096 == 0 && z.start <= z.end < 0x1_0000_0000
               && forall q :: z.start / 4096 <= q < z.end / 4096 ==> (space / 4096, q) !in PagesOf(vm.State())
      requires |vm.System().held + {space / 4096}| < 10
      requires zones as object != vm.tempMappings && zones as object != vm.pm.spBitmap.memory
      modifies zones
      ensures Valid() && this.vm == vm && this.space == space
      ensures start == old(zones[slot]).start && end == old(zones[slot]).end && brk == start
      ensures this.flags == (if large && !Large(flags) then flags + 128 else flags)
      ensures zones[..] == old(zones[..])[slot := old(zones[slot]).(use := true)]
      ensures vm.System() == old(vm.System())
    {
      hide Zone, SysInv, Inv, PagesOf, Held, SlotsOk, Spaces, FrameOf, Unpack, Large;
      var z := zones[slot];
      this.vm, this.space, this.start, this.end := vm, space, z.start, z.end;
      this.flags := if large && !Large(flags) then flags + 128 else flags;
      d, lo, hi, top := space / 4096, z.start / 4096, z.end / 4096, z.start / 4096;
      brk := z.start;
      new;
      LargeFlag(flags);
      WholePages(space);
      WholePages(start);
      WholePages(end);
      ZoneBegins(vm.System(), d, lo, hi);
      MarkUsed(zones, slot);
    }

    /** `used(true)` on a zone of the table. */
    method MarkUsed(zones: array<Zones.Zone>, slot: nat)
      requires Valid() && slot < zones.Length
      requires zones as object != vm.tempMappings && zones as object != vm.pm.spBitmap.memory
      modifies zones
      ensures Valid() && vm.System() == old(vm.System())
      ensures zones[..] == old(zones[..])[slot := old(zones[slot]).(use := true)]
    {
      hide Zone, SysInv, PagesOf, Held, SlotsOk, Spaces, FrameOf, Unpack, Large;
      zones[slot] := zones[slot].(use := true);
    }

    /** Somebody else's use of the machine leaves the allocator valid. */
    twostate lemma OthersKeep(op: Op)
      requires old(Valid()) && vm.Valid() && unchanged(this)
      requires Enabled(old(vm.System()), op) && vm.System() == Step(old(vm.System()), op)
      requires ZoneWords.Foreign(old(Maps()), d, lo, top, hi, op) && |vm.System().held + {d}| < 10
      ensures Valid()
    {
      hide Zone, SysInv, Step, Enabled, ZoneWords.Foreign;
      ZoneWords.ForeignKeeps(old(vm.System()), old(Maps()), d, lo, top, hi, op);
      ghost var a := AbsStep(old(Maps()), op);
      ZoneTaken(vm.System(), a, d, lo, top, hi);
      PagesOfOnly(vm.State(), a);
    }

    /** A frame for the next page. */
    method ClaimPage() returns (phys: nat)
      requires vm.Valid() && HasFrame(vm.pm.Taken())
      requires Enabled(vm.System(), ClaimFrame(LowestFrame(vm.pm.Taken())))
      requires SysInv(Step(vm.System(), ClaimFrame(LowestFrame(vm.pm.Taken()))))
      modifies vm.pm.spBitmap.memory
      ensures vm.Valid() && phys == 4096 * LowestFrame(old(vm.pm.Taken()))
      ensures vm.System() == Step(old(vm.System()), ClaimFrame(LowestFrame(old(vm.pm.Taken()))))
    {
      hide SysInv, Held, SlotsOk, Granted, Refused, Ends, Follows;
      ghost var slots := vm.tempMappings[..];
      OneFrame(vm.pm.Taken());
      PageIsPower();
      phys := vm.pm.AllocateAligned(4096, 4096);
      assert vm.tempMappings[..] == slots;
    }

    /** Claims a frame and maps the page at the break to it. */
    method MapNext()
      requires Valid() && top < hi && CanStep(vm.System(), d, top)
      modifies vm`nodes, vm.ram.cells, vm.pm.spBitmap.memory, vm.tempMappings
      ensures vm.Valid() && |vm.System().held + {d}| < 10
      ensures vm.System() == StepUp(old(vm.System()), old(Maps()), d, lo, top, hi, flags)
      ensures var a := StepMap(old(Maps()), d, top, LowestFrame(old(vm.pm.Taken())), flags);
              Zone(vm.System(), a, d, lo, top + 1, hi)
    {
      hide Zone, SysInv, Step, Enabled, Held, SlotsOk, LowestFrame, HasFrame, Inv, Refines, SlotsSuffice;
      hide StepUp, CanStep, PagesOf;
      RaisePlan(vm.System(), Maps(), d, lo, top, hi, flags);
      PageAt(brk, top);
      PageAt(space, d);
      var phys := ClaimPage();
      var ok := vm.Map(space, brk, phys, flags);
    }

    /** One round of `increase`: claim a frame, map it at the break, move the break. */
    method RaiseOne()
      requires Valid() && top < hi && CanStep(vm.System(), d, top)
      modifies this`brk, this`top
      modifies vm`nodes, vm.ram.cells, vm.pm.spBitmap.memory, vm.tempMappings
      ensures Valid() && top == old(top) + 1
      ensures vm.System() == StepUp(old(vm.System()), old(Maps()), d, lo, old(top), hi, flags)
      ensures Maps() == StepMap(old(Maps()), d, old(top), LowestFrame(old(vm.pm.Taken())), flags)
    {
      hide Zone, SysInv, Step, Enabled, Held, SlotsOk, LowestFrame, HasFrame, Inv, Refines, SlotsSuffice;
      hide StepUp, CanStep, PagesOf;
      ghost var a := StepMap(Maps(), d, top, LowestFrame(vm.pm.Taken()), flags);
      MapNext();
      ZoneTaken(vm.System(), a, d, lo, top + 1, hi);
      PagesOfOnly(vm.State(), a);
      brk := brk + 4096;
      top := top + 1;
    }

    /** The processor finds page `q` with the flags asked for, and may write to it if they say so. */
    ghost predicate Shown(m: Mem, q: nat) {
      var w := Walk86(m.ram, d, 4096 * q);
      && w.Some?
      && w.value.entry % 4096 == (if flags % 2 == 1 then flags else flags + 1)
      && (w.value.writes <==> flags / 2 % 2 == 1)
    }

    /** `increase`: all the pages asked for, or none if they do not fit the zone. */
    method Increase(count: nat) returns (r: nat)
      requires Valid()
      requires brk + 4096 * count < 0x1_0000_0000 || (brk + 4096 * count) % 0x1_0000_0000 > end
      requires BreakRule.Fits(brk, end, 4096, count) ==> CanGrow(vm.System(), Maps(), d, lo, top, hi, flags, count)
      modifies this`brk, this`top
      modifies vm`nodes, vm.ram.cells, vm.pm.spBitmap.memory, vm.tempMappings
      ensures Valid() && brk == BreakRule.Raised(old(brk), end, 4096, count)
      ensures brk == if old(brk) + 4096 * count <= end then old(brk) + 4096 * count else old(brk)
      ensures !BreakRule.Fits(old(brk), end, 4096, count) ==>
                r == 0 && vm.System() == old(vm.System()) && Maps() == old(Maps())
      ensures BreakRule.Fits(old(brk), end, 4096, count) ==>
                && r == brk
                && (vm.System(), Maps()) == Grown(old(vm.System()), old(Maps()), d, lo, old(top), hi, flags, count)
                && top == old(top) + count
                && forall q :: old(top) <= q < top ==> Shown(vm.State(), q)
    {
      hide Zone, SysInv, Step, Enabled, Held, SlotsOk, LowestFrame, HasFrame, Inv, Refines, SlotsSuffice;
      hide StepUp, CanStep, PagesOf, Walk86;
      ZoneTaken(vm.System(), Maps(), d, lo, top, hi);
      BreakRule.AboveIsExact(brk, end, 4096 * count);
      if BreakRule.TestsAbove(brk, end, 4096 * count) {
        return 0;
      }
      ghost var goal := Grown(vm.System(), Maps(), d, lo, top, hi, flags, count);
      ghost var from := top;
      GrownFlags(vm.System(), Maps(), d, lo, top, hi, flags, count);
      var i: nat := count;
      while i > 0
        invariant Valid() && i <= count && top == from + (count - i)
        invariant CanGrow(vm.System(), Maps(), d, lo, top, hi, flags, i)
        invariant Grown(vm.System(), Maps(), d, lo, top, hi, flags, i) == goal
      {
        RaiseOne();
        i := i - 1;
      }
      forall q | from <= q < top
        ensures Shown(vm.State(), q)
      {
        PageWalk(vm.System(), Maps(), d, lo, top, hi, q);
        FlagWrites(Maps()[(d, q)], flags);
      }
      r := brk;
    }

    /** Looks a page up and unmaps it. */
    method UnmapPage(virt: nat, ghost page: nat, ghost f: nat) returns (phys: nat)
      requires vm.Valid() && space == 4096 * d && virt == 4096 * page && virt < 0x1_0000_0000
      requires var w := Walk86(vm.State().ram, d, virt);
               w.Some? && w.value.entry - w.value.entry % 4096 == 4096 * f
      requires Enabled(vm.System(), GetMapped(d, page)) && SlotsSuffice(vm.System(), GetMapped(d, page))
      requires var s1 := Step(vm.System(), GetMapped(d, page));
               SysInv(s1) && Enabled(s1, Unmap(d, page)) && SlotsSuffice(s1, Unmap(d, page))
      modifies vm`nodes, vm.ram.cells, vm.pm.spBitmap.memory, vm.tempMappings
      ensures vm.Valid() && phys == 4096 * f
      ensures SysInv(Step(old(vm.System()), GetMapped(d, page)))
      ensures Enabled(Step(old(vm.System()), GetMapped(d, page)), Unmap(d, page))
      ensures vm.System() == Step(Step(old(vm.System()), GetMapped(d, page)), Unmap(d, page))
    {
      hide SysInv, Step, Enabled, Held, SlotsOk, SlotsSuffice, Walk86, TablePresent;
      PageAt(virt, page);
      PageAt(space, d);
      phys := vm.GetMappedAddr(space, virt);
      vm.Unmap(space, virt);
    }

    /** One round of `decrease`: look up the last page, unmap it, give its frame back. */
    method LowerOne()
      requires Valid() && lo < top
      modifies this`brk, this`top
      modifies vm`nodes, vm.ram.cells, vm.pm.spBitmap.memory, vm.tempMappings
      ensures Valid() && top == old(top) - 1
      ensures vm.System() == StepDown(old(vm.System()), old(Maps()), d, lo, old(top), hi)
      ensures Maps() == old(Maps()) - {(d, old(top) - 1)}
    {
      hide Zone, SysInv, Step, Enabled, Held, SlotsOk, Inv, Refines, SlotsSuffice, StepDown, PagesOf, Walk86;
      LowerPlan(vm.System(), Maps(), d, lo, top, hi);
      PageWalk(vm.System(), Maps(), d, lo, top, hi, top - 1);
      ghost var a := Maps();
      ghost var f := a[(d, top - 1)] / 4096;
      var phys := UnmapPage(brk - 4096, top - 1, f);
      FreePage(phys, f);
      ZoneTaken(vm.System(), a - {(d, top - 1)}, d, lo, top - 1, hi);
      PagesOfOnly(vm.State(), a - {(d, top - 1)});
      brk := brk - 4096;
      top := top - 1;
    }

    method FreePage(phys: nat, ghost f: nat)
      requires vm.Valid() && phys == 4096 * f && Enabled(vm.System(), ReturnFrame(f))
      requires SysInv(Step(vm.System(), ReturnFrame(f)))
      modifies vm.pm.spBitmap.memory
      ensures vm.Valid() && vm.System() == Step(old(vm.System()), ReturnFrame(f))
    {
      hide SysInv, Held, SlotsOk;
      ghost var slots := vm.tempMappings[..];
      vm.pm.Free(phys, 4096);
      assert vm.pm.Taken() == old(vm.pm.Taken())[f := false];
      assert vm.tempMappings[..] == slots;
    }

    /** `decrease`: by the pages asked for, but never below the start of the zone. */
    method Decrease(count: nat) returns (r: nat)
      requires Valid()
      requires 4096 * count <= brk || (brk - 4096 * count) % 0x1_0000_0000 < start
      modifies this`brk, this`top
      modifies vm`nodes, vm.ram.cells, vm.pm.spBitmap.memory, vm.tempMappings
      ensures Valid() && r == brk
      ensures var n := if count <= old(top) - lo then count else old(top) - lo;
              && top == old(top) - n
              && (vm.System(), Maps()) == Shrunk(old(vm.System()), old(Maps()), d, lo, old(top), hi, n)
    {
      hide Zone, SysInv, Step, Enabled, Held, SlotsOk, Inv, Refines, SlotsSuffice, StepDown, PagesOf;
      ZoneTaken(vm.System(), Maps(), d, lo, top, hi);
      var left: nat := count;
      BreakRule.BelowIsExact(brk, start, 4096 * left);
      if BreakRule.TestsBelow(brk, start, 4096 * left) {
        left := (brk - start) / 4096;
      }
      ghost var n, from := left, top;
      ghost var goal := Shrunk(vm.System(), Maps(), d, lo, top, hi, n);
      while left > 0
        invariant Valid() && left <= n && top == from - (n - left) && left <= top - lo
        invariant Shrunk(vm.System(), Maps(), d, lo, top, hi, left) == goal
      {
        LowerOne();
        left := left - 1;
      }
      r := brk;
    }
  }

  lemma WholePages(x: nat)
    requires x % 4096 == 0
    ensures x == 4096 * (x / 4096)
    ensures x < 0x1_0000_0000 ==> x / 4096 < 0x10_0000
  {
  }

  lemma PageAt(x: nat, page: nat)
    requires x == 4096 * page
    ensures x / 4096 == page && x % 4096 == 0
  {
  }

  /** Adding the large bit where it is missing keeps the flags in the low twelve bits. */
  lemma LargeFlag(flags: nat)
    requires flags < 4096
    ensures !Large(flags) ==> flags + 128 < 4096
  {
  }

  /** What `RaiseOne` goes through. */
  lemma RaisePlan(s: Sys, a: Pages, d: nat, lo: nat, top: nat, hi: nat, flags: nat)
    requires Zone(s, a, d, lo, top, hi) && top < hi && CanStep(s, d, top) && flags < 4096 && |s.held + {d}| < 10
    ensures HasFrame(s.mem.taken)
    ensures var p := LowestFrame(s.mem.taken);
            && Enabled(s, ClaimFrame(p))
            && var s1 := Step(s, ClaimFrame(p));
               && SysInv(s1) && Enabled(s1, Map(d, top, 4096 * p, flags))
               && SlotsSuffice(s1, Map(d, top, 4096 * p, flags))
               && var s2 := Step(s1, Map(d, top, 4096 * p, flags));
                  && s2 == StepUp(s, a, d, lo, top, hi, flags)
                  && Zone(s2, StepMap(a, d, top, p, flags), d, lo, top + 1, hi)
                  && |s2.held + {d}| < 10
  {
    hide Inv, LowestFrame, Mapped, Mappable, Data, Refines;
    StepUpZone(s, a, d, lo, top, hi, flags);
    assert s.held - {d} + {d} == s.held + {d};
  }

  lemma FlagWrites(e: nat, flags: nat)
    requires flags < 4096 && e % 4096 == if flags % 2 == 1 then flags else flags + 1
    ensures e / 2 % 2 == 1 <==> flags / 2 % 2 == 1
  {
    EvenPlus(1024 * (e / 4096), e % 4096 / 2);
  }

  /** The processor finds the entry the map has. */
  lemma PageWalk(s: Sys, a: Pages, d: nat, lo: nat, top: nat, hi: nat, q: nat)
    requires Zone(s, a, d, lo, top, hi) && lo <= q < top
    ensures (d, q) in a
    ensures Walk86(s.mem.ram, d, 4096 * q) == Some(Found(a[(d, q)], a[(d, q)] / 2 % 2 == 1, false))
  {
    hide Inv, Lookup, Walk86, Data;
    assert 4096 * q / 0x40_0000 == q / 1024 && 4096 * q / 0x1000 == q;
    Walk86Is(s.mem, d, 4096 * q);
    assert Answers(s.mem, a, d, q);
  }

  /** What `LowerOne` goes through. */
  lemma LowerPlan(s: Sys, a: Pages, d: nat, lo: nat, top: nat, hi: nat)
    requires Zone(s, a, d, lo, top, hi) && lo < top && |s.held + {d}| < 10
    ensures (d, top - 1) in a && top <= hi <= 0x10_0000
    ensures var page, f := top - 1, a[(d, top - 1)] / 4096;
            && AddressOf(Lookup(X86, s.mem.ram, d, Path(page))) == 4096 * f
            && Enabled(s, GetMapped(d, page)) && SlotsSuffice(s, GetMapped(d, page))
            && var s1 := Step(s, GetMapped(d, page));
               && s1.mem == s.mem && SysInv(s1) && Enabled(s1, Unmap(d, page)) && SlotsSuffice(s1, Unmap(d, page))
               && var s2 := Step(s1, Unmap(d, page));
                  && SysInv(s2) && Enabled(s2, ReturnFrame(f))
                  && var s3 := Step(s2, ReturnFrame(f));
                     && SysInv(s3) && s3 == StepDown(s, a, d, lo, top, hi)
                     && Zone(s3, a - {(d, page)}, d, lo, page, hi)
                     && |s3.held + {d}| < 10
  {
    hide Inv, Data, Refines, Lookup, WriteEntry, TablePresent;
    StepDownZone(s, a, d, lo, top, hi);
    assert s.held - {d} + {d} == s.held + {d};
  }
}
