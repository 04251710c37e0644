/** x86 address spaces as a state machine: two levels of 1024 entries, several spaces over one
  frame map, and the set of pages held by the temporary mapping slots. */
module AddressSpaces {
  import opened FrameMap
  import opened Options
  import opened Entries
  import opened PageTree

  /** `held` are the pages left in temporary slots between operations. */
  datatype Sys = Sys(mem: Mem, held: set<nat>)

  /** Table indices of a page number below 2^20. */
  function Path(page: nat): (p: seq<nat>)
    requires page < 0x10_0000
    ensures |p| == 2 && ValidPath(X86, p)
  {
    [page / 1024, page % 1024]
  }

  lemma PathUnique(page: nat, page': nat)
    requires page < 0x10_0000 && page' < 0x10_0000
    ensures Path(page) == Path(page') <==> page == page'
    ensures Agree(Path(page'), Path(page), 2) <==> page' == page
  {
    AgreeFully(Path(page'), Path(page));
    assert Path(page)[0] == page / 1024 && Path(page)[1] == page % 1024;
    assert Path(page')[0] == page' / 1024 && Path(page')[1] == page' % 1024;
  }

  ghost function Spaces(m: Mem): set<nat> {
    set f | f in m.nodes && m.nodes[f].height == 2
  }

  predicate TablePresent(m: Mem, d: nat, page: nat) {
    Present(Entry(m.ram, d, page / 1024))
  }

  function TableOf(m: Mem, d: nat, page: nat): nat {
    FrameOf(Entry(m.ram, d, page / 1024))
  }

  datatype Op =
    | NewSpace
    | Map(d: nat, page: nat, phys: nat, flags: nat)
    | Unmap(d: nat, page: nat)
    | GetMapped(d: nat, page: nat)
    | DeleteSpace(d: nat)
    | ClaimFrame(p: nat)
    | ReturnFrame(p: nat)
    | Store(f: nat, i: nat, v: nat)

  /** The operation does not halt the kernel for a reason other than missing slots. */
  ghost predicate Enabled(s: Sys, op: Op) {
    match op
    case NewSpace => HasFrame(s.mem.taken)
    case Map(d, page, phys, flags) =>
      && page < 0x10_0000
      && d in Spaces(s.mem) && Mappable(X86, s.mem, d, Path(page), 1)
    case Unmap(d, page) => page < 0x10_0000 && d in Spaces(s.mem) && TablePresent(s.mem, d, page)
    case GetMapped(d, page) => page < 0x10_0000 && d in Spaces(s.mem)
    case DeleteSpace(d) => d in Spaces(s.mem)
    case ClaimFrame(p) => p < |s.mem.taken| && !s.mem.taken[p]
    case ReturnFrame(p) => p < |s.mem.ram| && p in Data(s.mem)
    case Store(f, i, _) => f < |s.mem.ram| && f in Data(s.mem) && i < 1024
  }

  ghost predicate SysInv(s: Sys) {
    Inv(X86, s.mem) && s.held <= Spaces(s.mem)
  }

  lemma NewSpaceFits(m: Mem)
    requires Inv(X86, m) && HasFrame(m.taken)
    ensures 0 < LowestFrame(m.taken) < |m.ram| <= |m.taken| && !m.taken[LowestFrame(m.taken)]
  {
    FreeFrame(X86, m);
  }

  ghost function Step(s: Sys, op: Op): Sys
    requires SysInv(s) && Enabled(s, op)
  {
    match op
    case NewSpace =>
      NewSpaceFits(s.mem);
      Sys(WithRoot(X86, s.mem, LowestFrame(s.mem.taken)), s.held)
    case Map(d, page, phys, flags) =>
      Sys(Mapped(X86, s.mem, d, Path(page), 1, LeafFor(phys, flags)), s.held - {d})
    case Unmap(d, page) =>
      Sys(WriteEntry(s.mem, TableOf(s.mem, d, page), page % 1024, 0), s.held - {d})
    case GetMapped(d, page) =>
      Sys(s.mem, if TablePresent(s.mem, d, page) then s.held - {d} else s.held + {d})
    case DeleteSpace(d) => Sys(WithoutRoot(s.mem, d), s.held - {d})
    case ClaimFrame(p) => Sys(s.mem.(taken := s.mem.taken[p := true]), s.held)
    case ReturnFrame(p) => Sys(s.mem.(taken := s.mem.taken[p := false]), s.held)
    case Store(f, i, v) => Sys(WriteEntry(s.mem, f, i, v), s.held)
  }

  /** Before the first space is made every lookup answers as the empty map does. */
  lemma EmptyStart(m: Mem)
    requires Shaped(X86, m) && m.nodes == map[]
    ensures SysInv(Sys(m, {})) && Refines(m, map[])
  {
  }

  /** With a slot left (`SlotsSuffice`) a mapping returns exactly if the page is not mapped yet and
    the page table it needs is there or can be claimed.  A page mapped already halts the kernel.
    When no frame can be claimed for the table, the scan for one goes round forever if frame 0 is
    taken, and otherwise answers frame 0, on which the kernel halts as well. */
  lemma MapReturns(s: Sys, d: nat, page: nat, phys: nat, flags: nat)
    requires SysInv(s) && d in Spaces(s.mem) && page < 0x10_0000
    ensures Enabled(s, Map(d, page, phys, flags))
            <==> && Lookup(X86, s.mem.ram, d, Path(page)) == None
                 && (TablePresent(s.mem, d, page) || CanTake(s.mem.taken, 1))
    ensures Lookup(X86, s.mem.ram, d, Path(page)).Some? ==> TablePresent(s.mem, d, page)
    ensures |s.mem.taken| >= 8
    ensures !CanTake(s.mem.taken, 1) ==>
              if s.mem.taken[0] then !Ends(s.mem.taken, 1, 1) else Granted(s.mem.taken, 1, 1, 0)
  {
    hide Inv, Lookup, Open, FrameOf, LowestFrame, Granted, Refused, Ends;
    OpenIffUnmapped(X86, s.mem, d, Path(page));
    var p := Path(page);
    assert Missing(s.mem.ram, d, p, 1) == if TablePresent(s.mem, d, page) then 0 else 1;
    if !TablePresent(s.mem, d, page) {
      NoTable(s.mem, d, page);
    }
    TakenSize(s);
    if !CanTake(s.mem.taken, 1) {
      NoneClaimable(s.mem.taken);
    }
  }

  lemma TakenSize(s: Sys)
    requires SysInv(s)
    ensures |s.mem.taken| >= 8
  {
  }

  lemma NoneClaimable(taken: seq<bool>)
    requires |taken| >= 8 && !CanTake(taken, 1)
    ensures if taken[0] then !Ends(taken, 1, 1) else Granted(taken, 1, 1, 0)
  {
    hide Granted, Refused, Ends, CanTake;
    OneClaimable(taken);
    NoFrame(taken);
  }

  lemma OneClaimable(taken: seq<bool>)
    ensures HasFrame(taken) ==> CanTake(taken, 1)
  {
    if HasFrame(taken) {
      var p := LowestFrame(taken);
      assert Follows(taken, 1, p);
      assert CanTake(taken[p := true], 0);
    }
  }

  lemma NewTaken(s: Sys)
    requires SysInv(s) && Enabled(s, NewSpace)
    ensures Step(s, NewSpace).mem.taken == s.mem.taken[LowestFrame(s.mem.taken) := true]
    ensures LowestFrame(s.mem.taken) < |s.mem.taken|
  {
    hide LowestFrame, Inv;
    NewSpaceFits(s.mem);
  }

  // ----- the abstract machine: one finite map

  type Pages = map<(nat, nat), nat>

  function AbsStep(a: Pages, op: Op): Pages {
    match op
    case Map(d, page, phys, flags) => a[(d, page) := LeafFor(phys, flags)]
    case Unmap(d, page) => a - {(d, page)}
    case DeleteSpace(d) => map k | k in a && k.0 != d :: a[k]
    case _ => a
  }

  ghost predicate Answers(m: Mem, a: Pages, d: nat, page: nat)
    requires page < 0x10_0000
  {
    Lookup(X86, m.ram, d, Path(page)) == if (d, page) in a then Some(a[(d, page)]) else None
  }

  /** Every lookup in a live space answers as the finite map does. */
  ghost predicate Refines(m: Mem, a: Pages) {
    && (forall d, page :: d in Spaces(m) && 0 <= page < 0x10_0000 ==> Answers(m, a, d, page))
    && (forall k :: k in a ==> k.0 in Spaces(m) && k.1 < 0x10_0000)
  }

  /** The finite map that the lookups of a memory amount to. */
  ghost function PagesOf(m: Mem): Pages {
    map d: nat, page: nat | d in Spaces(m) && page < 0x10_0000 && Lookup(X86, m.ram, d, Path(page)).Some?
      :: (d, page) := Lookup(X86, m.ram, d, Path(page)).value
  }

  lemma PagesOfRefines(m: Mem)
    ensures Refines(m, PagesOf(m))
  {
    hide Lookup;
  }

  /** No other finite map fits. */
  lemma PagesOfOnly(m: Mem, a: Pages)
    requires Refines(m, a)
    ensures a == PagesOf(m)
  {
    hide Lookup;
    forall k
      ensures k in a <==> k in PagesOf(m)
      ensures k in a ==> a[k] == PagesOf(m)[k]
    {
      if k.0 in Spaces(m) && k.1 < 0x10_0000 {
        assert Answers(m, a, k.0, k.1);
      }
    }
  }

  // ----- each operation

  lemma MapStep(s: Sys, d: nat, page: nat, phys: nat, flags: nat)
    requires SysInv(s) && Enabled(s, Map(d, page, phys, flags))
    ensures var m' := Step(s, Map(d, page, phys, flags)).mem;
            Inv(X86, m') && Spaces(m') == Spaces(s.mem) && Data(m') == Data(s.mem)
  {
    hide Inv, Mappable;
    LeafEntry(X86, 1, phys, flags);
    MappedKeeps(X86, s.mem, d, Path(page), 1, LeafFor(phys, flags));
    MappedSpaces(s.mem, d, page, LeafFor(phys, flags));
  }

  /** Mapping makes tables of height 1 only. */
  lemma MappedSpaces(m: Mem, d: nat, page: nat, e: nat)
    requires page < 0x10_0000 && Mappable(X86, m, d, Path(page), 1)
    ensures Spaces(Mapped(X86, m, d, Path(page), 1, e)) == Spaces(m)
  {
    hide Inv, Open, Missing, CanTake, Entry, Present, FrameOf, TableEntry;
    var p := Path(page);
    WithChildKeeps(X86, m, d, p, 1);
    var m1 := WithChild(X86, m, d, p[0]);
    var c := FrameOf(Entry(m1.ram, d, p[0]));
    assert WithTables(X86, m, d, p, 1) == WithTables(X86, m1, c, p[1..], 1) == m1;
    if m1 != m {
      NewTableExtends(X86, m, d, p[0], LowestFrame(m.taken));
    }
  }

  lemma MapAnswers(s: Sys, a: Pages, d: nat, page: nat, phys: nat, flags: nat, d': nat, page': nat)
    requires SysInv(s) && Enabled(s, Map(d, page, phys, flags))
    requires d' in Spaces(s.mem) && page' < 0x10_0000 && Answers(s.mem, a, d', page')
    ensures Answers(Step(s, Map(d, page, phys, flags)).mem, a[(d, page) := LeafFor(phys, flags)], d', page')
  {
    hide Inv, Mappable, Lookup, Agree, Mapped;
    LeafEntry(X86, 1, phys, flags);
    MappedLookup(X86, s.mem, d, Path(page), 1, LeafFor(phys, flags), d', Path(page'));
    PathUnique(page, page');
  }

  /** The walk to a page whose table is present. */
  lemma TableReached(m: Mem, d: nat, page: nat)
    requires Inv(X86, m) && d in Spaces(m) && page < 0x10_0000 && TablePresent(m, d, page)
    ensures var t := TableOf(m, d, page);
            && t in m.nodes && m.nodes[t].height == 1 && m.nodes[t].parent == d
            && Passes(X86, m.ram, d, Path(page), t, page % 1024)
            && Lookup(X86, m.ram, d, Path(page)) == LeafValue(Entry(m.ram, t, page % 1024))
  {
    ChildOf(X86, m, d, page / 1024);
    var t, p := TableOf(m, d, page), Path(page);
    assert p[0] == page / 1024 && p[1..] == [page % 1024];
    assert Child(X86, 2, Entry(m.ram, d, page / 1024));
    assert Passes(X86, m.ram, t, p[1..], t, page % 1024);
  }

  lemma UnmapStep(s: Sys, d: nat, page: nat)
    requires SysInv(s) && Enabled(s, Unmap(d, page))
    ensures var m' := Step(s, Unmap(d, page)).mem;
            Inv(X86, m') && Spaces(m') == Spaces(s.mem) && Data(m') == Data(s.mem)
  {
    hide Inv, Passes, Lookup, Entry;
    TableReached(s.mem, d, page);
    ClearedLookup(X86, s.mem, d, Path(page), TableOf(s.mem, d, page), page % 1024, d, Path(page));
  }

  lemma UnmapAnswers(s: Sys, a: Pages, d: nat, page: nat, d': nat, page': nat)
    requires SysInv(s) && Enabled(s, Unmap(d, page))
    requires d' in Spaces(s.mem) && page' < 0x10_0000 && Answers(s.mem, a, d', page')
    ensures Answers(Step(s, Unmap(d, page)).mem, a - {(d, page)}, d', page')
  {
    hide Inv, Passes, Lookup, Entry, WriteEntry;
    TableReached(s.mem, d, page);
    ClearedLookup(X86, s.mem, d, Path(page), TableOf(s.mem, d, page), page % 1024, d', Path(page'));
    PathUnique(page, page');
  }

  lemma NewStep(s: Sys)
    requires SysInv(s) && Enabled(s, NewSpace)
    ensures var m', p := Step(s, NewSpace).mem, LowestFrame(s.mem.taken);
            Inv(X86, m') && p !in Spaces(s.mem) && Spaces(m') == Spaces(s.mem) + {p} && Data(m') == Data(s.mem)
  {
    hide Inv, LowestFrame;
    NewSpaceFits(s.mem);
    WithRootInv(X86, s.mem, LowestFrame(s.mem.taken));
  }

  lemma DeleteStep(s: Sys, d: nat)
    requires SysInv(s) && Enabled(s, DeleteSpace(d))
    ensures var m' := Step(s, DeleteSpace(d)).mem;
            Inv(X86, m') && Spaces(m') == Spaces(s.mem) - {d} && Data(m') == Data(s.mem)
  {
    hide Inv;
    WithoutRootInv(s.mem, d);
  }

  lemma DataFrameStep(s: Sys, p: nat, value: bool)
    requires SysInv(s)
    requires if value then Enabled(s, ClaimFrame(p)) else Enabled(s, ReturnFrame(p))
    ensures p < |s.mem.taken|
    ensures var m' := s.mem.(taken := s.mem.taken[p := value]);
            && Inv(X86, m') && Spaces(m') == Spaces(s.mem)
            && Data(m') == if value then Data(s.mem) + {p} else Data(s.mem) - {p}
  {
    hide Present, Child, FrameOf, Entry;
    assert p !in s.mem.nodes;
  }

  lemma StoreStep(s: Sys, f: nat, i: nat, v: nat)
    requires SysInv(s) && Enabled(s, Store(f, i, v))
    ensures var m' := Step(s, Store(f, i, v)).mem;
            && Inv(X86, m') && m'.nodes == s.mem.nodes && Spaces(m') == Spaces(s.mem) && Data(m') == Data(s.mem)
            && forall t :: t in s.mem.nodes ==> t < |s.mem.ram| && m'.ram[t] == s.mem.ram[t]
  {
    hide Inv, Data;
    DataStoreInv(X86, s.mem, f, i, v);
  }

  lemma StoreAnswers(s: Sys, a: Pages, f: nat, i: nat, v: nat, d: nat, page: nat)
    requires SysInv(s) && Enabled(s, Store(f, i, v)) && Refines(s.mem, a)
    requires d in Spaces(s.mem) && page < 0x10_0000
    ensures Answers(Step(s, Store(f, i, v)).mem, a, d, page)
  {
    hide Inv, Data, Lookup;
    DataStoreLookup(X86, s.mem, f, i, v, d, Path(page));
    assert Answers(s.mem, a, d, page);
  }

  // ----- one step

  /** Frames that clients hold, from the operations alone. */
  function DataStep(data: set<nat>, op: Op): set<nat> {
    match op
    case ClaimFrame(p) => data + {p}
    case ReturnFrame(p) => data - {p}
    case _ => data
  }

  lemma StepKeeps(s: Sys, op: Op)
    requires SysInv(s) && Enabled(s, op)
    ensures SysInv(Step(s, op)) && Data(Step(s, op).mem) == DataStep(Data(s.mem), op)
  {
    hide Inv, Mappable, Mapped, WithRoot, WithoutRoot, WriteEntry, Data, LowestFrame;
    match op
    case NewSpace => NewStep(s);
    case Map(d, page, phys, flags) => MapStep(s, d, page, phys, flags);
    case Unmap(d, page) => UnmapStep(s, d, page);
    case GetMapped(d, page) =>
    case DeleteSpace(d) => DeleteStep(s, d);
    case ClaimFrame(p) => DataFrameStep(s, p, true);
    case ReturnFrame(p) => DataFrameStep(s, p, false);
    case Store(f, i, v) => StoreStep(s, f, i, v);
  }

  lemma StepRefines(s: Sys, a: Pages, op: Op)
    requires SysInv(s) && Enabled(s, op) && Refines(s.mem, a)
    ensures Refines(Step(s, op).mem, AbsStep(a, op))
  {
    hide Inv, Mappable, Mapped, WriteEntry, Data, LowestFrame, Answers, Lookup;
    var m' := Step(s, op).mem;
    match op
    case NewSpace =>
      NewStep(s);
      NewSpaceFits(s.mem);
      forall d, page | d in Spaces(m') && 0 <= page < 0x10_0000
        ensures Answers(m', a, d, page)
      {
        NewAnswers(s, a, d, page);
      }
    case Map(d, page, phys, flags) =>
      MapStep(s, d, page, phys, flags);
      forall d', page' | d' in Spaces(m') && 0 <= page' < 0x10_0000
        ensures Answers(m', AbsStep(a, op), d', page')
      {
        MapAnswers(s, a, d, page, phys, flags, d', page');
      }
    case Unmap(d, page) =>
      UnmapStep(s, d, page);
      forall d', page' | d' in Spaces(m') && 0 <= page' < 0x10_0000
        ensures Answers(m', AbsStep(a, op), d', page')
      {
        UnmapAnswers(s, a, d, page, d', page');
      }
    case GetMapped(d, page) =>
    case DeleteSpace(d) =>
      DeleteStep(s, d);
      forall d', page' | d' in Spaces(m') && 0 <= page' < 0x10_0000
        ensures Answers(m', AbsStep(a, op), d', page')
      {
        DeleteAnswers(s, a, d, d', page');
      }
    case ClaimFrame(p) => DataFrameStep(s, p, true); SameAnswers(s.mem, m', a);
    case ReturnFrame(p) => DataFrameStep(s, p, false); SameAnswers(s.mem, m', a);
    case Store(f, i, v) =>
      StoreStep(s, f, i, v);
      forall d, page | d in Spaces(m') && 0 <= page < 0x10_0000
        ensures Answers(m', a, d, page)
      {
        StoreAnswers(s, a, f, i, v, d, page);
      }
  }

  lemma SameAnswers(m: Mem, m': Mem, a: Pages)
    requires Refines(m, a) && m'.ram == m.ram && Spaces(m') == Spaces(m)
    ensures Refines(m', a)
  {
    forall d, page | d in Spaces(m') && 0 <= page < 0x10_0000
      ensures Answers(m', a, d, page)
    {
      assert Answers(m, a, d, page);
    }
  }

  lemma NewAnswers(s: Sys, a: Pages, d: nat, page: nat)
    requires SysInv(s) && Enabled(s, NewSpace) && Refines(s.mem, a)
    requires d in Spaces(Step(s, NewSpace).mem) && page < 0x10_0000
    ensures Answers(Step(s, NewSpace).mem, a, d, page)
  {
    hide Inv, Lookup, LowestFrame, WithRoot;
    NewStep(s);
    NewSpaceFits(s.mem);
    WithRootLookup(X86, s.mem, LowestFrame(s.mem.taken), d, Path(page));
    if d in Spaces(s.mem) {
      assert Answers(s.mem, a, d, page);
    }
  }

  lemma DeleteAnswers(s: Sys, a: Pages, d: nat, d': nat, page: nat)
    requires SysInv(s) && Enabled(s, DeleteSpace(d)) && Refines(s.mem, a)
    requires d' in Spaces(s.mem) && d' != d && page < 0x10_0000
    ensures Answers(Step(s, DeleteSpace(d)).mem, AbsStep(a, DeleteSpace(d)), d', page)
  {
    assert Answers(s.mem, a, d', page);
  }

  /** A directory entry that is absent maps nothing. */
  lemma NoTable(m: Mem, d: nat, page: nat)
    requires page < 0x10_0000 && !TablePresent(m, d, page)
    ensures Lookup(X86, m.ram, d, Path(page)) == None
  {
  }

  /** No two present directory entries, of one space or of two, share a page table. */
  lemma TablesDistinct(s: Sys, d: nat, page: nat, d': nat, page': nat)
    requires SysInv(s) && d in Spaces(s.mem) && d' in Spaces(s.mem)
    requires page < 0x10_0000 && page' < 0x10_0000
    requires TablePresent(s.mem, d, page) && TablePresent(s.mem, d', page')
    requires TableOf(s.mem, d, page) == TableOf(s.mem, d', page')
    ensures d == d' && page / 1024 == page' / 1024
  {
    ChildOf(X86, s.mem, d, page / 1024);
    ChildOf(X86, s.mem, d', page' / 1024);
  }

  // ----- runs

  ghost predicate RunEnabled(s: Sys, ops: seq<Op>)
    requires SysInv(s)
    decreases ops
  {
    ops == [] ||
    (Enabled(s, ops[0]) && (StepKeeps(s, ops[0]); RunEnabled(Step(s, ops[0]), ops[1..])))
  }

  ghost function Run(s: Sys, ops: seq<Op>): (s': Sys)
    requires SysInv(s) && RunEnabled(s, ops)
    ensures SysInv(s')
    decreases ops
  {
    if ops == [] then s
    else
      StepKeeps(s, ops[0]);
      Run(Step(s, ops[0]), ops[1..])
  }

  function AbsRun(a: Pages, ops: seq<Op>): Pages
    decreases ops
  {
    if ops == [] then a else AbsRun(AbsStep(a, ops[0]), ops[1..])
  }

  function DataRun(data: set<nat>, ops: seq<Op>): set<nat>
    decreases ops
  {
    if ops == [] then data else DataRun(DataStep(data, ops[0]), ops[1..])
  }

  /** Any run of map, unmap, lookup and space creation and deletion behaves as insertion,
    deletion and lookup on one finite map from (space, page) to entry. */
  lemma {:induction false} RunRefines(s: Sys, a: Pages, ops: seq<Op>, d: nat, page: nat)
    requires SysInv(s) && Refines(s.mem, a) && RunEnabled(s, ops)
    ensures var s', a' := Run(s, ops), AbsRun(a, ops);
            && Refines(s'.mem, a')
            && (d in Spaces(s'.mem) && page < 0x10_0000 ==>
                  Lookup(X86, s'.mem.ram, d, Path(page)) == if (d, page) in a' then Some(a'[(d, page)]) else None)
    decreases ops
  {
    if ops == [] {
      if d in Spaces(s.mem) && page < 0x10_0000 {
        assert Answers(s.mem, a, d, page);
      }
    } else {
      StepKeeps(s, ops[0]);
      StepRefines(s, a, ops[0]);
      RunRefines(Step(s, ops[0]), AbsStep(a, ops[0]), ops[1..], d, page);
    }
  }

  lemma {:induction false} RunData(s: Sys, ops: seq<Op>)
    requires SysInv(s) && RunEnabled(s, ops)
    ensures Data(Run(s, ops).mem) == DataRun(Data(s.mem), ops)
    decreases ops
  {
    if ops == [] {
    } else {
      StepKeeps(s, ops[0]);
      RunData(Step(s, ops[0]), ops[1..]);
    }
  }

  ghost function TakenFrames(m: Mem): set<nat> {
    set k | 0 <= k < |m.taken| && m.taken[k]
  }

  /** Conservation: a run that starts without spaces and ends with all of them deleted has
    given back every directory and every table, and nothing else: the frames taken are those
    taken before, as changed by the clients' own claims and returns. */
  lemma SpacesGiveBack(s: Sys, ops: seq<Op>)
    requires SysInv(s) && s.mem.nodes == map[] && RunEnabled(s, ops)
    requires Spaces(Run(s, ops).mem) == {}
    ensures TakenFrames(Run(s, ops).mem) == DataRun(TakenFrames(s.mem), ops)
  {
    var m' := Run(s, ops).mem;
    RunData(s, ops);
    assert Data(s.mem) == TakenFrames(s.mem);
    forall f | f in m'.nodes
      ensures m'.nodes[f].height != 2
    {
      assert f !in Spaces(m');
    }
    NoRoots(m');
  }

  // ----- one space among others

  /** The operation makes or gives back no tables, except tables of space `d`. */
  predicate Local(op: Op, d: nat) {
    match op
    case NewSpace => false
    case Map(e, _, _, _) => e == d
    case DeleteSpace(_) => false
    case _ => true
  }

  /** The tables that do not belong to space `d`. */
  ghost function Others(m: Mem, d: nat): map<nat, Node> {
    m.nodes - Owned(m, d)
  }

  lemma MapOthers(s: Sys, d: nat, page: nat, phys: nat, flags: nat)
    requires SysInv(s) && Enabled(s, Map(d, page, phys, flags))
    ensures Others(Step(s, Map(d, page, phys, flags)).mem, d) == Others(s.mem, d)
  {
    hide Inv, Open, Missing, CanTake, Entry, Present, FrameOf, TableEntry, LeafFor;
    var p, e := Path(page), LeafFor(phys, flags);
    WithChildKeeps(X86, s.mem, d, p, 1);
    var m1 := WithChild(X86, s.mem, d, p[0]);
    var c := FrameOf(Entry(m1.ram, d, p[0]));
    assert WithTables(X86, s.mem, d, p, 1) == WithTables(X86, m1, c, p[1..], 1) == m1;
    if m1 != s.mem {
      NewTableExtends(X86, s.mem, d, p[0], LowestFrame(s.mem.taken));
    }
  }

  lemma LocalStep(s: Sys, d: nat, op: Op)
    requires SysInv(s) && Enabled(s, op) && Local(op, d) && d in Spaces(s.mem)
    ensures SysInv(Step(s, op)) && d in Spaces(Step(s, op).mem)
    ensures Others(Step(s, op).mem, d) == Others(s.mem, d)
    ensures Data(Step(s, op).mem) == DataStep(Data(s.mem), op)
  {
    hide Inv, Mappable, Mapped, Data, Others;
    StepKeeps(s, op);
    match op
    case Map(_, page, phys, flags) =>
      MapStep(s, d, page, phys, flags);
      MapOthers(s, d, page, phys, flags);
    case Unmap(e, page) =>
      UnmapStep(s, e, page);
      SameOthers(s.mem, Step(s, op).mem, d);
    case ClaimFrame(p) =>
      DataFrameStep(s, p, true);
      SameOthers(s.mem, Step(s, op).mem, d);
    case ReturnFrame(p) =>
      DataFrameStep(s, p, false);
      SameOthers(s.mem, Step(s, op).mem, d);
    case Store(f, i, v) =>
      StoreStep(s, f, i, v);
      SameOthers(s.mem, Step(s, op).mem, d);
    case _ =>
  }

  lemma SameOthers(m: Mem, m': Mem, d: nat)
    requires m'.nodes == m.nodes
    ensures Others(m', d) == Others(m, d)
  {
    assert Owned(m', d) == Owned(m, d);
  }

  /** A run local to `d` leaves all other tables alone, and clients never return one of them. */
  lemma {:induction false} LocalRun(s: Sys, d: nat, ops: seq<Op>)
    requires SysInv(s) && RunEnabled(s, ops) && d in Spaces(s.mem) && forall op :: op in ops ==> Local(op, d)
    ensures d in Spaces(Run(s, ops).mem) && Others(Run(s, ops).mem, d) == Others(s.mem, d)
    ensures DataRun(Data(s.mem) + Others(s.mem, d).Keys, ops) == Data(Run(s, ops).mem) + Others(s.mem, d).Keys
    decreases ops
  {
    hide Inv, Data, Others, Spaces, Step, Enabled;
    if ops == [] {
    } else {
      var op := ops[0];
      assert op in ops;
      LocalStep(s, d, op);
      NotReturned(s, d, op);
      LocalRun(Step(s, op), d, ops[1..]);
    }
  }

  lemma NotReturned(s: Sys, d: nat, op: Op)
    requires SysInv(s) && Enabled(s, op)
    ensures DataStep(Data(s.mem) + Others(s.mem, d).Keys, op) == DataStep(Data(s.mem), op) + Others(s.mem, d).Keys
  {
    hide Inv, Mappable;
    if op.ReturnFrame? {
      assert op.p !in Others(s.mem, d);
    }
  }

  /** The space a table belongs to. */
  function Owner(m: Mem, t: nat): nat
    requires t in m.nodes
  {
    if m.nodes[t].height == 2 then t else m.nodes[t].parent
  }

  lemma OneOwner(m: Mem, t: nat)
    requires Inv(X86, m) && t in m.nodes
    ensures Owner(m, t) in Spaces(m)
    ensures forall e :: e in Spaces(m) ==> (t in Owned(m, e) <==> e == Owner(m, t))
  {
    hide Present, Child, FrameOf, Entry;
    NodeFits(X86, m, t);
    if m.nodes[t].height == 1 {
      assert m.nodes[t].parent in m.nodes;
    }
  }

  /** Conservation for one space among others.  It is made, anything at all is done with it and with
    other spaces, and it is deleted: what is left are the tables that belonged to others, each to a
    live space, and the frames clients hold.  If nobody else made or gave back tables meanwhile,
    the tables are those before, and so are the taken frames, as changed by the clients' own claims
    and returns. */
  lemma SpaceGivesBack(s: Sys, ops: seq<Op>)
    requires SysInv(s) && Enabled(s, NewSpace) && SysInv(Step(s, NewSpace)) && RunEnabled(Step(s, NewSpace), ops)
    requires LowestFrame(s.mem.taken) in Spaces(Run(Step(s, NewSpace), ops).mem)
    ensures var d, s' := LowestFrame(s.mem.taken), Run(Step(s, NewSpace), ops);
            && Enabled(s', DeleteSpace(d))
            && var s'' := Step(s', DeleteSpace(d));
               && s''.mem.nodes == Others(s'.mem, d)
               && TakenFrames(s''.mem) == DataRun(Data(s.mem), ops) + Others(s'.mem, d).Keys
               && (forall t :: t in s''.mem.nodes ==>
                     Owner(s''.mem, t) != d && Owner(s''.mem, t) in Spaces(s''.mem))
               && ((forall op :: op in ops ==> Local(op, d)) ==>
                     s''.mem.nodes == s.mem.nodes && TakenFrames(s''.mem) == DataRun(TakenFrames(s.mem), ops))
  {
    hide Inv, LowestFrame, HasFrame, Data, WithRoot;
    var d, s1 := LowestFrame(s.mem.taken), Step(s, NewSpace);
    NewStep(s);
    var s2 := Run(s1, ops);
    var s3 := Step(s2, DeleteSpace(d));
    RunData(s1, ops);
    DeleteStep(s2, d);
    TakenSplit(s.mem);
    TakenSplit(s3.mem);
    forall t | t in s3.mem.nodes
      ensures Owner(s3.mem, t) != d && Owner(s3.mem, t) in Spaces(s3.mem)
    {
      OneOwner(s3.mem, t);
    }
    if forall op :: op in ops ==> Local(op, d) {
      NewOthers(s);
      LocalRun(s1, d, ops);
    }
  }

  lemma NewOthers(s: Sys)
    requires SysInv(s) && Enabled(s, NewSpace)
    ensures Others(Step(s, NewSpace).mem, LowestFrame(s.mem.taken)) == s.mem.nodes
  {
    hide LowestFrame, HasFrame, Present, FrameOf, Entry;
    NewSpaceFits(s.mem);
    assert LowestFrame(s.mem.taken) !in s.mem.nodes;
    assert forall t :: t in s.mem.nodes && s.mem.nodes[t].height == 1 ==> s.mem.nodes[t].parent in s.mem.nodes;
  }

  /** All taken frames are tables or data. */
  lemma TakenSplit(m: Mem)
    requires Inv(X86, m)
    ensures TakenFrames(m) == Data(m) + m.nodes.Keys
  {
  }

  /** After any run, spaces made, used and deleted in any interleaving: a taken frame is one that
    clients hold, or a table of exactly one live space.  Nothing of a deleted space is left. */
  lemma RunAccounts(s: Sys, ops: seq<Op>, k: nat)
    requires SysInv(s) && RunEnabled(s, ops) && k in TakenFrames(Run(s, ops).mem)
    ensures var m, data := Run(s, ops).mem, DataRun(Data(s.mem), ops);
            && (k in data <==> k !in m.nodes)
            && (k in m.nodes ==>
                  && Owner(m, k) in Spaces(m)
                  && forall e :: e in Spaces(m) ==> (k in Owned(m, e) <==> e == Owner(m, k)))
  {
    var m := Run(s, ops).mem;
    RunData(s, ops);
    if k in m.nodes {
      OneOwner(m, k);
    }
  }

  // ----- temporary slots

  /** The operation finds a free slot, of ten, whenever it needs one. */
  ghost predicate SlotsSuffice(s: Sys, op: Op) {
    match op
    case NewSpace => |s.held| < 10
    case Map(d, _, _, _) => |s.held + {d}| < 10
    case Unmap(d, _) => |s.held + {d}| < 10
    case GetMapped(d, page) => |s.held + {d}| < (if TablePresent(s.mem, d, page) then 10 else 11)
    case DeleteSpace(d) => |s.held + {d}| <= 10
    case _ => true
  }

  lemma SubsetSize(a: set<nat>, b: set<nat>)
    requires a <= b
    ensures |a| <= |b|
  {
    assert b == a + (b - a);
  }

  /** With at most nine live spaces no operation of any run is stopped for want of a slot. */
  lemma NineSpacesSuffice(s: Sys, ops: seq<Op>, op: Op)
    requires SysInv(s) && RunEnabled(s, ops) && |Spaces(Run(s, ops).mem)| <= 9
    requires Enabled(Run(s, ops), op)
    ensures SlotsSuffice(Run(s, ops), op)
  {
    hide Inv, Mappable, Spaces, TablePresent, RunEnabled, Run, HasFrame;
    var s' := Run(s, ops);
    SubsetSize(s'.held, Spaces(s'.mem));
    match op
    case Map(d, _, _, _) => SubsetSize(s'.held + {d}, Spaces(s'.mem));
    case Unmap(d, _) => SubsetSize(s'.held + {d}, Spaces(s'.mem));
    case GetMapped(d, _) => SubsetSize(s'.held + {d}, Spaces(s'.mem));
    case DeleteSpace(d) => SubsetSize(s'.held + {d}, Spaces(s'.mem));
    case _ =>
  }

  /** Lookups of page 0 in each of the spaces `ds`. */
  function Probes(ds: seq<nat>): seq<Op> {
    if ds == [] then [] else [GetMapped(ds[0], 0)] + Probes(ds[1..])
  }

  function Elements(ds: seq<nat>): set<nat> {
    set d | d in ds
  }

  lemma {:induction false} ProbesHold(s: Sys, ds: seq<nat>)
    requires SysInv(s)
    requires forall d :: d in ds ==> d in Spaces(s.mem) && !TablePresent(s.mem, d, 0)
    ensures RunEnabled(s, Probes(ds))
    ensures Run(s, Probes(ds)) == Sys(s.mem, s.held + Elements(ds))
    decreases ds
  {
    hide Inv, Spaces, TablePresent;
    if ds == [] {
      assert s.held + Elements(ds) == s.held;
    } else {
      var op := GetMapped(ds[0], 0);
      assert ds[0] in ds;
      assert Probes(ds)[0] == op && Probes(ds)[1..] == Probes(ds[1..]);
      StepKeeps(s, op);
      var s1 := Step(s, op);
      ProbesHold(s1, ds[1..]);
      assert s1.held + Elements(ds[1..]) == s.held + Elements(ds);
    }
  }

  /** Nine is the most: ten spaces without a table for page 0 can be driven, by one failed lookup
    each, into a state where no mapping of any page in any of them finds a slot. */
  lemma TenSpacesStuck(s: Sys, ds: seq<nat>, d: nat, page: nat, phys: nat, flags: nat)
    requires SysInv(s) && |Elements(ds)| == 10 && d in ds
    requires forall d :: d in ds ==> d in Spaces(s.mem) && !TablePresent(s.mem, d, 0)
    ensures RunEnabled(s, Probes(ds))
    ensures !SlotsSuffice(Run(s, Probes(ds)), Map(d, page, phys, flags))
  {
    ProbesHold(s, ds);
    SubsetSize(Elements(ds), s.held + Elements(ds) + {d});
  }

  function Creations(n: nat): seq<Op> {
    if n == 0 then [] else [NewSpace] + Creations(n - 1)
  }

  /** Making spaces: as many as frames can be claimed, all of them without a table for page 0. */
  lemma {:induction false} SpacesMade(s: Sys, n: nat) returns (ds: seq<nat>)
    requires SysInv(s) && CanTake(s.mem.taken, n)
    ensures RunEnabled(s, Creations(n))
    ensures |Elements(ds)| == n && Elements(ds) !! Spaces(s.mem)
    ensures var m := Run(s, Creations(n)).mem;
            && (forall d :: d in ds ==> d in Spaces(m) && !TablePresent(m, d, 0))
            && (forall d :: d in Spaces(s.mem) ==>
                  d in Spaces(m) && TablePresent(m, d, 0) == TablePresent(s.mem, d, 0))
    decreases n
  {
    hide Inv, Spaces, LowestFrame, HasFrame, TablePresent;
    if n == 0 {
      ds := [];
      assert Elements(ds) == {};
    } else {
      var d := LowestFrame(s.mem.taken);
      var s1 := Step(s, NewSpace);
      NewStep(s);
      NewTaken(s);
      StepKeeps(s, NewSpace);
      NewPresence(s);
      var rest := SpacesMade(s1, n - 1);
      assert Creations(n)[0] == NewSpace && Creations(n)[1..] == Creations(n - 1);
      ds := [d] + rest;
      assert Elements(ds) == {d} + Elements(rest);
    }
  }

  lemma NewPresence(s: Sys)
    requires SysInv(s) && Enabled(s, NewSpace)
    ensures var m' := Step(s, NewSpace).mem;
            && !TablePresent(m', LowestFrame(s.mem.taken), 0)
            && forall d :: d in Spaces(s.mem) ==> TablePresent(m', d, 0) == TablePresent(s.mem, d, 0)
  {
    hide Inv, LowestFrame, HasFrame, WithRoot, Entry;
    NewStep(s);
    NewSpaceFits(s.mem);
    RootEntries(X86, s.mem, LowestFrame(s.mem.taken));
  }

  /** Ten spaces in that state can be reached whenever ten frames can be claimed: from there ten
    failed lookups leave no slot for mapping anything in any of them. */
  lemma TenSpacesReached(s: Sys) returns (ds: seq<nat>)
    requires SysInv(s) && CanTake(s.mem.taken, 10)
    ensures RunEnabled(s, Creations(10)) && |Elements(ds)| == 10
    ensures var s' := Run(s, Creations(10));
            && RunEnabled(s', Probes(ds))
            && forall d, page, phys, flags :: d in ds ==>
                 !SlotsSuffice(Run(s', Probes(ds)), Map(d, page, phys, flags))
  {
    hide Inv, Spaces, TablePresent, SlotsSuffice, Elements, Probes, CanTake, RunEnabled, Run, Creations;
    ds := SpacesMade(s, 10);
    var s' := Run(s, Creations(10));
    ProbesHold(s', ds);
    forall d, page, phys, flags | d in ds
      ensures !SlotsSuffice(Run(s', Probes(ds)), Map(d, page, phys, flags))
    {
      TenSpacesStuck(s', ds, d, page, phys, flags);
    }
  }
}
