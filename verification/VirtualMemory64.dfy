/** x86_64 virtual memory: four levels of 512 entries, with 2M pages at the second lowest. */
module VirtualMemory64Model {
  import opened FrameMap
  import opened PhysicalMemoryModel
  import opened Options
  import opened Entries
  import opened PageTree
  import opened FrameStoreModel
  import opened PagingWalk

  /** Table indices of a virtual address, top level first. */
  function Path(virt: nat): (p: seq<nat>)
    ensures |p| == 4 && ValidPath(X64, p)
  {
    [virt / 0x80_0000_0000 % 512, virt / 0x4000_0000 % 512, virt / 0x20_0000 % 512, virt / 0x1000 % 512]
  }

  /** Two addresses in the same 4K or 2M page (bits above 47 are ignored by the walk). */
  predicate SamePage(v: nat, w: nat, large: bool) {
    var size := if large then 0x20_0000 else 0x1000;
    v % 0x1_0000_0000_0000 / size == w % 0x1_0000_0000_0000 / size
  }

  lemma DivTwice(v: nat)
    ensures v / 0x20_0000 == v / 0x1000 / 512
    ensures v / 0x4000_0000 == v / 0x20_0000 / 512
    ensures v / 0x80_0000_0000 == v / 0x4000_0000 / 512
    ensures v / 0x1_0000_0000_0000 == v / 0x80_0000_0000 / 512
  {
  }

  /** The four indices are the digits, in base 512, of the page number. */
  lemma PathDigits(v: nat)
    ensures var p := Path(v);
            && v % 0x1_0000_0000_0000 / 0x20_0000 == 0x4_0000 * p[0] + 512 * p[1] + p[2]
            && v % 0x1_0000_0000_0000 / 0x1000 == 0x800_0000 * p[0] + 0x4_0000 * p[1] + 512 * p[2] + p[3]
  {
    DivTwice(v);
    var w0, r := v / 0x1000, v % 0x1000;
    var w1, p3 := w0 / 512, w0 % 512;
    var w2, p2 := w1 / 512, w1 % 512;
    var w3, p1 := w2 / 512, w2 % 512;
    var w4, p0 := w3 / 512, w3 % 512;
    Compose(w4, p0, p1, p2, p3, r);
    assert v == 0x1_0000_0000_0000 * w4 + 0x80_0000_0000 * p0 + 0x4000_0000 * p1 + 0x20_0000 * p2 + 0x1000 * p3 + r;
  }

  lemma Compose(w4: nat, p0: nat, p1: nat, p2: nat, p3: nat, r: nat)
    requires p0 < 512 && p1 < 512 && p2 < 512 && p3 < 512 && r < 0x1000
    ensures var v := 0x1_0000_0000_0000 * w4 + 0x80_0000_0000 * p0 + 0x4000_0000 * p1
                     + 0x20_0000 * p2 + 0x1000 * p3 + r;
            && v % 0x1_0000_0000_0000 / 0x20_0000 == 0x4_0000 * p0 + 512 * p1 + p2
            && v % 0x1_0000_0000_0000 / 0x1000 == 0x800_0000 * p0 + 0x4_0000 * p1 + 512 * p2 + p3
  {
    var x := 0x80_0000_0000 * p0 + 0x4000_0000 * p1 + 0x20_0000 * p2 + 0x1000 * p3 + r;
    assert (0x1_0000_0000_0000 * w4 + x) % 0x1_0000_0000_0000 == x;
  }

  lemma DigitsUnique(a: nat, b: nat, c: nat, a': nat, b': nat, c': nat)
    requires b < 512 && c < 512 && b' < 512 && c' < 512
    ensures 0x4_0000 * a + 512 * b + c == 0x4_0000 * a' + 512 * b' + c' <==> a == a' && b == b' && c == c'
  {
  }

  lemma AgreeUnfolds(p: seq<nat>, q: seq<nat>)
    requires |p| == |q| == 4
    ensures Agree(p, q, 3) <==> p[0] == q[0] && p[1] == q[1] && p[2] == q[2]
    ensures Agree(p, q, 4) <==> p[0] == q[0] && p[1] == q[1] && p[2] == q[2] && p[3] == q[3]
  {
    var p1, q1 := p[1..], q[1..];
    var p2, q2 := p1[1..], q1[1..];
    var p3, q3 := p2[1..], q2[1..];
    assert Agree(p3, q3, 0) && Agree(p3[1..], q3[1..], 0);
    assert Agree(p2, q2, 1) <==> p[2] == q[2];
    assert Agree(p3, q3, 1) <==> p[3] == q[3];
    assert Agree(p2, q2, 2) <==> p[2] == q[2] && p[3] == q[3];
    assert Agree(p1, q1, 2) <==> p[1] == q[1] && p[2] == q[2];
  }

  lemma SamePageAgrees(v: nat, w: nat)
    ensures SamePage(v, w, true) <==> Agree(Path(v), Path(w), 3)
    ensures SamePage(v, w, false) <==> Agree(Path(v), Path(w), 4)
  {
    hide Agree;
    var p, q := Path(v), Path(w);
    PathDigits(v);
    PathDigits(w);
    AgreeUnfolds(p, q);
    DigitsUnique(p[0], p[1], p[2], q[0], q[1], q[2]);
    DigitsUnique(512 * p[0] + p[1], p[2], p[3], 512 * q[0] + q[1], q[2], q[3]);
  }

  // ----- addresses and flags

  /** Height of the table whose entry maps a page. */
  function StopFor(flags: nat): nat {
    if Large(flags) then 2 else 1
  }

  /** `map` then `getMappedAddr` refine insertion into a finite map: the mapped page, 4K or 2M,
    of the mapped space answers with its frame, and every other page of every space answers as
    before; tables stay distinct and taken, and no data frame changes hands. */
  lemma MapRefines(m: Mem, space: nat, virt: nat, phys: nat, flags: nat, space': nat, virt': nat)
    requires Mappable(X64, m, space, Path(virt), StopFor(flags))
    requires space' in m.nodes && m.nodes[space'].height == 4
    ensures var m' := Mapped(X64, m, space, Path(virt), StopFor(flags), LeafFor(phys, flags));
            && Inv(X64, m') && Keeps(m, m')
            && Lookup(X64, m'.ram, space', Path(virt'))
               == if space' == space && SamePage(virt', virt, Large(flags)) then Some(LeafFor(phys, flags))
                  else Lookup(X64, m.ram, space', Path(virt'))
  {
    hide Agree, SamePage, Lookup, Mappable, Inv, Keeps, Leaf, Present, Large, LeafFor;
    LeafEntry(X64, StopFor(flags), phys, flags);
    MappedKeeps(X64, m, space, Path(virt), StopFor(flags), LeafFor(phys, flags));
    MappedLookup(X64, m, space, Path(virt), StopFor(flags), LeafFor(phys, flags), space', Path(virt'));
    SamePageAgrees(virt', virt);
  }

  // ----- runs of mappings

  datatype MapOp = MapOp(space: nat, virt: nat, phys: nat, flags: nat)

  ghost predicate MapEnabled(m: Mem, op: MapOp) {
    Mappable(X64, m, op.space, Path(op.virt), StopFor(op.flags))
  }

  /** A mapping returns exactly if the entry for the page, or the directory entry for a large one,
    is absent, and the missing tables can be claimed. */
  lemma MapReturns(m: Mem, op: MapOp)
    requires Inv(X64, m) && op.space in m.nodes && m.nodes[op.space].height == 4
    ensures MapEnabled(m, op)
            <==> && !Present(EntryAt(X64, m.ram, op.space, Path(op.virt), StopFor(op.flags)))
                 && CanTake(m.taken, Missing(m.ram, op.space, Path(op.virt), StopFor(op.flags)))
    ensures !Large(op.flags) ==>
              (MapEnabled(m, op) <==>
                && Lookup(X64, m.ram, op.space, Path(op.virt)) == None
                && CanTake(m.taken, Missing(m.ram, op.space, Path(op.virt), 1)))
  {
    hide Inv, Open, EntryAt, Missing, CanTake, Lookup, Path, Large;
    OpenIffAbsent(X64, m.ram, op.space, Path(op.virt), StopFor(op.flags));
    if !Large(op.flags) {
      OpenIffUnmapped(X64, m, op.space, Path(op.virt));
    }
  }

  ghost function MapStep(m: Mem, op: MapOp): Mem {
    Mapped(X64, m, op.space, Path(op.virt), StopFor(op.flags), LeafFor(op.phys, op.flags))
  }

  ghost predicate MapsEnabled(m: Mem, ops: seq<MapOp>)
    decreases ops
  {
    ops == [] || (MapEnabled(m, ops[0]) && MapsEnabled(MapStep(m, ops[0]), ops[1..]))
  }

  ghost function MapsRun(m: Mem, ops: seq<MapOp>): Mem
    decreases ops
  {
    if ops == [] then m else MapsRun(MapStep(m, ops[0]), ops[1..])
  }

  /** What the latest mapping of a page in `ops` says of it, or else what was said before. */
  function Latest(ops: seq<MapOp>, space: nat, virt: nat, before: Option<nat>): Option<nat>
    decreases ops
  {
    if ops == [] then before
    else
      var op := ops[0];
      Latest(ops[1..], space, virt,
             if space == op.space && SamePage(virt, op.virt, Large(op.flags)) then Some(LeafFor(op.phys, op.flags))
             else before)
  }

  /** After any run of mappings, of 4K and 2M pages mixed, each page of each space is found
    where the run's finite map has it; the tree is well formed and every table it made is
    taken, distinct from all others and from the frames clients hold. */
  lemma {:induction false} MapsRefine(m: Mem, ops: seq<MapOp>, space: nat, virt: nat)
    requires Inv(X64, m) && MapsEnabled(m, ops) && space in m.nodes && m.nodes[space].height == 4
    ensures var m' := MapsRun(m, ops);
            && Inv(X64, m') && Keeps(m, m')
            && Lookup(X64, m'.ram, space, Path(virt)) == Latest(ops, space, virt, Lookup(X64, m.ram, space, Path(virt)))
    decreases ops
  {
    hide Inv, Keeps, Lookup, Mapped, Mappable, Path, SamePage;
    KeepsSelf(m);
    if ops == [] {
    } else {
      var op, m1 := ops[0], MapStep(m, ops[0]);
      MapRefines(m, op.space, op.virt, op.phys, op.flags, space, virt);
      RootKept(m, m1, space);
      MapsRefine(m1, ops[1..], space, virt);
      KeepsTransitive(m, m1, MapsRun(m, ops));
    }
  }

  lemma RootKept(m: Mem, m': Mem, space: nat)
    requires Keeps(m, m') && space in m.nodes
    ensures space in m'.nodes && m'.nodes[space] == m.nodes[space]
  {
  }

  // ----- large pages

  /** No lowest table is empty. */
  ghost predicate Filled(m: Mem) {
    forall t :: t in m.nodes && m.nodes[t].height == 1 ==>
      exists i :: 0 <= i < 512 && Present(Entry(m.ram, t, i))
  }

  /** `map` fills the entry of every lowest table it makes. */
  lemma MapFills(m: Mem, op: MapOp)
    requires Inv(X64, m) && Filled(m) && MapEnabled(m, op)
    ensures Filled(MapStep(m, op))
  {
    hide Inv, Present, Entry, Mappable, WithTables, TableFor, LeafFor, Path, Large, Keeps, Mapped, Data;
    var f, p, stop, e := op.space, Path(op.virt), StopFor(op.flags), LeafFor(op.phys, op.flags);
    var m1, m' := WithTables(X64, m, f, p, stop), MapStep(m, op);
    LeafEntry(X64, stop, op.phys, op.flags);
    MappedKeeps(X64, m, f, p, stop, e);
    WithTablesKeeps(X64, m, f, p, stop);
    forall t | t in m'.nodes && m'.nodes[t].height == 1
      ensures exists i :: 0 <= i < 512 && Present(Entry(m'.ram, t, i))
    {
      MappedParts(m, f, p, stop, e);
      if t in m.nodes {
        PresentKept(m, m', t);
      } else {
        NewestLowest(X64, m, f, p, stop, t);
        assert Present(Entry(m'.ram, t, p[4 - stop]));
      }
    }
  }

  lemma MappedParts(m: Mem, f: nat, p: seq<nat>, stop: nat, e: nat)
    requires Mappable(X64, m, f, p, stop) && |p| == 4
    ensures var m' := Mapped(X64, m, f, p, stop, e);
            && m'.nodes == WithTables(X64, m, f, p, stop).nodes && p[4 - stop] < 512
            && Entry(m'.ram, TableFor(X64, m, f, p, stop), p[4 - stop]) == e
  {
    hide Inv, WithTables, TableFor, Keeps, Open, Missing, CanTake, Passes;
    WithTablesKeeps(X64, m, f, p, stop);
    NodeFits(X64, WithTables(X64, m, f, p, stop), TableFor(X64, m, f, p, stop));
  }

  lemma PresentKept(m: Mem, m': Mem, t: nat)
    requires Keeps(m, m') && t in m.nodes
    requires m.nodes[t].height == 1 ==> exists i :: 0 <= i < 512 && Present(Entry(m.ram, t, i))
    ensures m'.nodes[t].height == 1 ==> exists i :: 0 <= i < 512 && Present(Entry(m'.ram, t, i))
  {
    hide Present, Entry;
    if m.nodes[t].height == 1 {
      var i :| 0 <= i < 512 && Present(Entry(m.ram, t, i));
      assert Present(Entry(m'.ram, t, i));
    }
  }

  /** Below a present directory entry some page is mapped: the large one, or one of a page table. */
  lemma {:induction false} MappedBelow(m: Mem, f: nat, path: seq<nat>) returns (q: seq<nat>)
    requires Inv(X64, m) && Filled(m) && f in m.nodes && m.nodes[f].height == |path| >= 2 && ValidPath(X64, path)
    requires Present(EntryAt(X64, m.ram, f, path, 2))
    ensures |q| == |path| && ValidPath(X64, q) && Agree(path, q, |path| - 1)
    ensures Lookup(X64, m.ram, f, q).Some?
    decreases path
  {
    hide Inv, FrameOf;
    ChildOf(X64, m, f, path[0]);
    var e := Entry(m.ram, f, path[0]);
    if |path| > 2 {
      var rest := MappedBelow(m, FrameOf(e), path[1..]);
      q := [path[0]] + rest;
      assert q[1..] == rest;
    } else if Child(X64, 2, e) {
      var t := FrameOf(e);
      var i :| 0 <= i < 512 && Present(Entry(m.ram, t, i));
      q := [path[0], i];
      assert q[1..] == [i];
      assert Agree(path[1..], q[1..], 0);
    } else {
      q := path;
      assert Agree(path[1..], q[1..], 0);
    }
  }

  /** The address of small page `i` within a large page. */
  lemma SmallPage(virt: nat, i: nat) returns (v: nat)
    requires i < 512
    ensures SamePage(v, virt, true)
    ensures Path(v) == Path(virt)[..3] + [i]
  {
    v := 0x20_0000 * (virt / 0x20_0000) + 0x1000 * i;
    DivTwice(v);
    DivTwice(virt);
    assert v / 0x20_0000 == virt / 0x20_0000 && v / 0x1000 == 512 * (virt / 0x20_0000) + i;
    assert Path(v)[0] == Path(virt)[0] && Path(v)[1] == Path(virt)[1] && Path(v)[2] == Path(virt)[2];
    assert Path(v)[3] == i;
    PathDigits(v);
    PathDigits(virt);
  }

  lemma LargeMapReturns(m: Mem, op: MapOp)
    requires Inv(X64, m) && Filled(m) && op.space in m.nodes && m.nodes[op.space].height == 4 && Large(op.flags)
    ensures MapEnabled(m, op)
            <==> && (forall v :: SamePage(v, op.virt, true) ==> Lookup(X64, m.ram, op.space, Path(v)) == None)
                 && CanTake(m.taken, Missing(m.ram, op.space, Path(op.virt), 2))
  {
    hide Inv, Open, EntryAt, Missing, CanTake, Lookup, Path, Large, SamePage, Agree, Filled;
    MapReturns(m, op);
    var p := Path(op.virt);
    if Present(EntryAt(X64, m.ram, op.space, p, 2)) {
      var q := MappedBelow(m, op.space, p);
      AgreeUnfolds(p, q);
      var v := SmallPage(op.virt, q[3]);
      assert Path(v) == q;
    } else {
      forall v | SamePage(v, op.virt, true)
        ensures Lookup(X64, m.ram, op.space, Path(v)) == None
      {
        SamePageAgrees(op.virt, v);
        assert SamePage(op.virt, v, true) by { SameSymmetric(v, op.virt); }
        AbsentBelow(X64, m.ram, op.space, p, Path(v), 2);
      }
    }
  }

  lemma SameSymmetric(v: nat, w: nat)
    ensures SamePage(v, w, true) == SamePage(w, v, true)
  {
  }

  /** After any run of mappings that begins without empty lowest tables (`RootsFilled`), mapping a
    large page returns exactly if no address in it is mapped and the missing tables can be claimed:
    a page table stands in its way only where it maps something. */
  lemma {:induction false} LargeMapsReturn(m: Mem, ops: seq<MapOp>, op: MapOp)
    requires Inv(X64, m) && Filled(m) && MapsEnabled(m, ops)
    requires op.space in m.nodes && m.nodes[op.space].height == 4 && Large(op.flags)
    ensures var m' := MapsRun(m, ops);
            && Filled(m')
            && (MapEnabled(m', op)
                <==> && (forall v :: SamePage(v, op.virt, true) ==> Lookup(X64, m'.ram, op.space, Path(v)) == None)
                     && CanTake(m'.taken, Missing(m'.ram, op.space, Path(op.virt), 2)))
    decreases ops
  {
    hide Inv, Filled, Keeps, Lookup, Mapped, Mappable, Path, SamePage, Missing, CanTake;
    if ops == [] {
      LargeMapReturns(m, op);
    } else {
      var op0, m1 := ops[0], MapStep(m, ops[0]);
      MapFills(m, op0);
      MapRefines(m, op0.space, op0.virt, op0.phys, op0.flags, op.space, op.virt);
      RootKept(m, m1, op.space);
      LargeMapsReturn(m1, ops[1..], op);
    }
  }

  /** A memory whose tables are roots only has no lowest table to fill. */
  lemma RootsFilled(m: Mem)
    requires forall t :: t in m.nodes ==> m.nodes[t].height == 4
    ensures Filled(m)
  {
  }

  class VirtualMemory {
    const ram: FrameStore
    const pm: PhysicalMemory
    ghost var nodes: map<nat, Node>

    ghost function State(): Mem
      reads this, ram, ram.cells, pm, pm.spBitmap, pm.spBitmap.memory
    {
      Mem(ram.View(), pm.Taken(), nodes)
    }

    ghost predicate Valid()
      reads this, ram, ram.cells, pm, pm.spBitmap, pm.spBitmap.memory
    {
      && ram.Valid() && ram.arch == X64 && pm.Valid()
      && ram.cells.Length0 == pm.frames
      && Inv(X64, State())
    }

    constructor (ram: FrameStore, pm: PhysicalMemory)
      requires ram.Valid() && ram.arch == X64 && pm.Valid() && ram.cells.Length0 == pm.frames
      ensures Valid() && nodes == map[] && this.ram == ram && this.pm == pm
    {
      this.ram, this.pm, nodes := ram, pm, map[];
    }

    /** `allocatePStructAny`: a zeroed frame; running out of frames halts the kernel. */
    method AllocatePStructAny() returns (addr: nat)
      requires Valid() && HasFrame(pm.Taken())
      modifies ram.cells, pm.spBitmap.memory
      ensures pm.Valid() && ram.Valid()
      ensures addr == 4096 * LowestFrame(old(pm.Taken())) && LowestFrame(old(pm.Taken())) < ram.cells.Length0
      ensures pm.Taken() == old(pm.Taken())[LowestFrame(old(pm.Taken())) := true]
      ensures ram.View() == old(ram.View())[LowestFrame(old(pm.Taken())) := EmptyTable(X64)]
    {
      hide Inv, Follows, Granted, Refused, Ends;
      OneFrame(pm.Taken());
      FreeFrame(X64, State());
      PageIsPower();
      addr := pm.AllocateAligned(4096, 4096);
      ram.Zero(addr / 4096);
    }

    /** A new address space, without the kernel's own entry. */
    method NewSpace() returns (space: nat)
      requires Valid() && HasFrame(pm.Taken())
      modifies this`nodes, ram.cells, pm.spBitmap.memory
      ensures Valid()
      ensures space == 4096 * LowestFrame(old(pm.Taken())) && LowestFrame(old(pm.Taken())) < ram.cells.Length0
      ensures State() == WithRoot(X64, old(State()), LowestFrame(old(pm.Taken())))
    {
      hide Inv, Follows;
      FreeFrame(X64, State());
      WithRootInv(X64, State(), LowestFrame(pm.Taken()));
      space := AllocatePStructAny();
      nodes := nodes[space / 4096 := Node(4, 0, 0)];
    }

    /** One level of `splitVirtualAndMap`: the table behind entry `i` of table `f`, made if it is
      missing, unless its presence is demanded. */
    method Descend(f: nat, i: nat, forcePresent: bool) returns (ok: bool, next: nat)
      requires Valid() && f in nodes && nodes[f].height >= 2 && i < 512
      requires forcePresent || Present(Entry(ram.View(), f, i)) || HasFrame(pm.Taken())
      modifies this`nodes, ram.cells, pm.spBitmap.memory
      ensures ok <==> !forcePresent || Present(old(Entry(ram.View(), f, i)))
      ensures State() == if forcePresent then old(State()) else WithChild(X64, old(State()), f, i)
      ensures Valid()
      ensures ok ==> next == FrameOf(Entry(ram.View(), f, i))
    {
      hide Inv, Follows, TableEntry, Entry, FrameOf;
      NodeFits(X64, State(), f);
      if !Present(ram.Read(f, i)) {
        if forcePresent {
          return false, 0;
        }
        ghost var m, p := State(), LowestFrame(pm.Taken());
        FreeFrame(X64, m);
        NewTableInv(X64, m, f, i, p);
        var addr := AllocatePStructAny();
        ram.Write(f, i, TableEntry(addr / 4096));
        nodes := nodes[p := Node(nodes[f].height - 1, f, i)];
        assert State() == NewTable(X64, m, f, i, p);
      }
      ok, next := true, FrameOf(ram.Read(f, i));
    }

    /** `splitVirtualAndMap` while mapping: all tables down to the leaf's height get made. */
    method SplitVirtual(space: nat, virt: nat, large: bool) returns (table: nat)
      requires Valid() && Mappable(X64, State(), space / 4096, Path(virt), if large then 2 else 1)
      modifies this`nodes, ram.cells, pm.spBitmap.memory
      ensures Valid()
      ensures var f, p, stop := space / 4096, Path(virt), if large then 2 else 1;
              State() == WithTables(X64, old(State()), f, p, stop) && table == TableFor(X64, old(State()), f, p, stop)
    {
      hide Inv, Mappable, Entry, Child, Present, FrameOf, ValidPath, WithTables, TableFor, WithChild;
      var p := Path(virt);
      assert p[1..][0] == p[1] && p[2..][0] == p[2];
      assert p[1..][1..] == p[2..] && p[2..][1..] == p[3..];
      ghost var stop := if large then 2 else 1;
      MappableStep(State(), space / 4096, p, stop);
      var ok, pdpt := Descend(space / 4096, p[0], false);
      MappableStep(State(), pdpt, p[1..], stop);
      var pd;
      ok, pd := Descend(pdpt, p[1], false);
      if large {
        TablesDone(State(), pd, p[2..], stop);
        return pd;
      }
      MappableStep(State(), pd, p[2..], stop);
      ok, table := Descend(pd, p[2], false);
      TablesDone(State(), table, p[3..], stop);
    }

    /** `map`, for a page that does not halt it. */
    method Map(space: nat, virt: nat, phys: nat, flags: nat) returns (ok: bool)
      requires Valid()
      requires Mappable(X64, State(), space / 4096, Path(virt), StopFor(flags))
      modifies this`nodes, ram.cells, pm.spBitmap.memory
      ensures ok && Valid()
      ensures State() == Mapped(X64, old(State()), space / 4096, Path(virt), StopFor(flags), LeafFor(phys, flags))
      ensures var w := Walk64(ram.View(), space / 4096, virt);
              w.Some? && Carries(w.value, phys, flags)
    {
      hide Inv, Open, Missing, CanTake, Entry, Child, Present, FrameOf, Keeps, ValidPath;
      hide WithTables, TableFor, Mappable, Walk64, Carries;
      ghost var m := State();
      LeafEntry(X64, StopFor(flags), phys, flags);
      MappedKeeps(X64, m, space / 4096, Path(virt), StopFor(flags), LeafFor(phys, flags));
      WithTablesKeeps(X64, m, space / 4096, Path(virt), StopFor(flags));
      var table := SplitVirtual(space, virt, Large(flags));
      NodeFits(X64, State(), table);
      LeafHere(X64, m, space / 4096, Path(virt), StopFor(flags), LeafFor(phys, flags));
      if Large(flags) {
        ram.Write(table, Path(virt)[2], LeafFor(phys, flags));
      } else {
        ram.Write(table, Path(virt)[3], LeafFor(phys, flags));
      }
      MapWalks(m, space / 4096, virt, phys, flags);
      ok := true;
    }

    /** `getMappedAddr`: the address of the frame behind the page, 0 if there is none. */
    method GetMappedAddr(space: nat, virt: nat) returns (mapped: nat)
      requires Valid() && space / 4096 in nodes && nodes[space / 4096].height == 4
      ensures var w := Walk64(ram.View(), space / 4096, virt);
              mapped == if w.Some? then w.value.entry - w.value.entry % 4096 else 0
    {
      hide Inv, Lookup, Present, Large, Entry, FrameOf, Child, Path, Walk64;
      WalkAnswers(State(), space / 4096, virt);
      var p := Path(virt);
      assert p[1..][0] == p[1] && p[2..][0] == p[2] && p[3..][0] == p[3];
      assert p[1..][1..] == p[2..] && p[2..][1..] == p[3..];
      LookupStep(State(), space / 4096, p);
      var e := ram.Read(space / 4096, p[0]);
      if !Present(e) {
        return 0;
      }
      var pdpt := FrameOf(e);
      LookupStep(State(), pdpt, p[1..]);
      e := ram.Read(pdpt, p[1]);
      if !Present(e) {
        return 0;
      }
      var pd := FrameOf(e);
      LookupStep(State(), pd, p[2..]);
      e := ram.Read(pd, p[2]);
      if Present(e) && Large(e) {
        return 4096 * FrameOf(e);
      }
      if !Present(e) {
        return 0;
      }
      var pt := FrameOf(e);
      LookupStep(State(), pt, p[3..]);
      mapped := 4096 * FrameOf(ram.Read(pt, p[3]));
    }
  }

  /** What the processor finds at a page just mapped. */
  lemma MapWalks(m: Mem, space: nat, virt: nat, phys: nat, flags: nat)
    requires Mappable(X64, m, space, Path(virt), StopFor(flags))
    ensures var w := Walk64(Mapped(X64, m, space, Path(virt), StopFor(flags), LeafFor(phys, flags)).ram, space, virt);
            w.Some? && Carries(w.value, phys, flags)
  {
    hide Inv, Mapped, LeafFor, Carries, Lookup, Walk64, StopFor, Large, Open, Missing, CanTake, Keeps;
    var m' := Mapped(X64, m, space, Path(virt), StopFor(flags), LeafFor(phys, flags));
    MapRefines(m, space, virt, phys, flags, space, virt);
    RootKept(m, m', space);
    Walk64Is(m', space, virt);
    LeafCarries(phys, flags);
  }

  lemma WalkAnswers(m: Mem, space: nat, virt: nat)
    requires Inv(X64, m) && space in m.nodes && m.nodes[space].height == 4
    ensures var w := Walk64(m.ram, space, virt);
            AddressOf(Lookup(X64, m.ram, space, Path(virt)))
            == if w.Some? then w.value.entry - w.value.entry % 4096 else 0
  {
    hide Inv, Lookup, Walk64;
    Walk64Is(m, space, virt);
  }

  /** Making the next table of a mappable path leaves the rest of it mappable. */
  lemma MappableStep(m: Mem, f: nat, path: seq<nat>, stop: nat)
    requires Mappable(X64, m, f, path, stop) && |path| > stop
    ensures f in m.nodes && m.nodes[f].height == |path| && path[0] < 512
    ensures Present(Entry(m.ram, f, path[0])) || HasFrame(m.taken)
    ensures var m1 := WithChild(X64, m, f, path[0]);
            var c := FrameOf(Entry(m1.ram, f, path[0]));
            && Mappable(X64, m1, c, path[1..], stop)
            && WithTables(X64, m, f, path, stop) == WithTables(X64, m1, c, path[1..], stop)
            && TableFor(X64, m, f, path, stop) == TableFor(X64, m1, c, path[1..], stop)
  {
    WithChildKeeps(X64, m, f, path, stop);
  }

  lemma TablesDone(m: Mem, f: nat, path: seq<nat>, stop: nat)
    requires |path| <= stop
    ensures WithTables(X64, m, f, path, stop) == m && TableFor(X64, m, f, path, stop) == f
  {
  }

  /** One level of a lookup, as the walk reads it. */
  lemma LookupStep(m: Mem, f: nat, path: seq<nat>)
    requires Inv(X64, m) && f in m.nodes && m.nodes[f].height == |path| && ValidPath(X64, path)
    ensures f < |m.ram| && |path| > 0
    ensures var e := Entry(m.ram, f, path[0]);
            && (!Present(e) ==> AddressOf(Lookup(X64, m.ram, f, path)) == 0)
            && (Present(e) && |path| > 1 && !(|path| == 2 && Large(e)) ==>
                  && FrameOf(e) in m.nodes && m.nodes[FrameOf(e)].height == |path| - 1
                  && Lookup(X64, m.ram, f, path) == Lookup(X64, m.ram, FrameOf(e), path[1..]))
            && (|path| == 1 || (|path| == 2 && Present(e) && Large(e)) ==>
                  AddressOf(Lookup(X64, m.ram, f, path)) == 4096 * FrameOf(e))
  {
    NodeFits(X64, m, f);
    ChildOf(X64, m, f, path[0]);
  }
}
