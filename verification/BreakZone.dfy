/** A zone of virtual pages kept mapped up to a break, as runs of the x86 address-space machine.

  Pages are numbered; a zone is [lo, hi), its break `top`, and `a` the finite map the
  address spaces refine. */
module BreakZone {
  import opened FrameMap
  import opened Entries
  import opened PageTree
  import opened AddressSpaces

  /** Exactly the pages below the break are mapped, each to a taken frame of its own that is no
    page table. */
  ghost predicate Zone(s: Sys, a: Pages, d: nat, lo: nat, top: nat, hi: nat) {
    && SysInv(s) && Refines(s.mem, a) && d in Spaces(s.mem)
    && lo <= top <= hi <= 0x10_0000
    && (forall q :: lo <= q < top ==> (d, q) in a && a[(d, q)] / 4096 in Data(s.mem)
                                      && a[(d, q)] / 4096 < |s.mem.ram|)
    && (forall q, q' :: lo <= q < q' < top ==> a[(d, q)] / 4096 != a[(d, q')] / 4096)
    && (forall q :: top <= q < hi ==> (d, q) !in a)
  }

  /** Where none of its pages is mapped, a zone can begin, with its break at the start. */
  lemma ZoneBegins(s: Sys, d: nat, lo: nat, hi: nat)
    requires SysInv(s) && d in Spaces(s.mem) && lo <= hi <= 0x10_0000
    requires forall q :: lo <= q < hi ==> (d, q) !in PagesOf(s.mem)
    ensures Zone(s, PagesOf(s.mem), d, lo, lo, hi)
  {
    hide Inv, PagesOf, Refines;
    PagesOfRefines(s.mem);
  }

  // ----- one page up

  /** The next page can be claimed and mapped without halting. */
  ghost predicate CanStep(s: Sys, d: nat, top: nat) {
    && top < 0x10_0000 && HasFrame(s.mem.taken) && LowestFrame(s.mem.taken) < |s.mem.taken|
    && CanTake(s.mem.taken[LowestFrame(s.mem.taken) := true], Missing(s.mem.ram, d, Path(top), 1))
  }

  function StepMap(a: Pages, d: nat, top: nat, p: nat, flags: nat): Pages {
    a[(d, top) := LeafFor(4096 * p, flags)]
  }

  /** Claiming the lowest frame and mapping the page at the break to it are both enabled. */
  lemma StepUpEnabled(s: Sys, a: Pages, d: nat, lo: nat, top: nat, hi: nat, flags: nat)
    requires Zone(s, a, d, lo, top, hi) && top < hi && CanStep(s, d, top) && flags < 4096
    ensures var p := LowestFrame(s.mem.taken);
            && p < |s.mem.ram| && p !in Data(s.mem) && p !in s.mem.nodes
            && Enabled(s, ClaimFrame(p)) && SysInv(Step(s, ClaimFrame(p)))
            && Enabled(Step(s, ClaimFrame(p)), Map(d, top, 4096 * p, flags))
  {
    hide Inv, Lookup, Open, Missing, CanTake, Data;
    var p := LowestFrame(s.mem.taken);
    NewSpaceFits(s.mem);
    TakenOnly(s.mem, p);
    StepKeeps(s, ClaimFrame(p));
    DataFrameStep(s, p, true);
    assert Answers(s.mem, a, d, top);
    OpenIffUnmapped(X86, s.mem, d, Path(top));
    SameInv(s, p);
  }

  lemma TakenOnly(m: Mem, p: nat)
    requires Inv(X86, m) && p < |m.taken| && !m.taken[p]
    ensures p !in Data(m) && p !in m.nodes
  {
  }

  lemma SameInv(s: Sys, p: nat)
    requires SysInv(s) && Enabled(s, ClaimFrame(p))
    ensures Step(s, ClaimFrame(p)).mem == s.mem.(taken := s.mem.taken[p := true])
  {
  }

  lemma StepUpZone(s: Sys, a: Pages, d: nat, lo: nat, top: nat, hi: nat, flags: nat)
    requires Zone(s, a, d, lo, top, hi) && top < hi && CanStep(s, d, top) && flags < 4096
    ensures var p := LowestFrame(s.mem.taken);
            && Enabled(s, ClaimFrame(p)) && SysInv(Step(s, ClaimFrame(p)))
            && Enabled(Step(s, ClaimFrame(p)), Map(d, top, 4096 * p, flags))
            && var s' := Step(Step(s, ClaimFrame(p)), Map(d, top, 4096 * p, flags));
               && Zone(s', StepMap(a, d, top, p, flags), d, lo, top + 1, hi)
               && p !in Data(s.mem) && Data(s'.mem) == Data(s.mem) + {p}
               && s'.held == s.held - {d} && Spaces(s'.mem) == Spaces(s.mem)
  {
    hide Inv, Refines, Enabled, Step, Data, LowestFrame, Spaces, LeafFor;
    var p := LowestFrame(s.mem.taken);
    StepUpEnabled(s, a, d, lo, top, hi, flags);
    var s1 := Step(s, ClaimFrame(p));
    StepKeeps(s, ClaimFrame(p));
    StepRefines(s, a, ClaimFrame(p));
    var op := Map(d, top, 4096 * p, flags);
    StepKeeps(s1, op);
    StepRefines(s1, a, op);
    StepParts(s, p, d, top, flags);
    LeafForParts(4096 * p, flags);
  }

  lemma StepParts(s: Sys, p: nat, d: nat, top: nat, flags: nat)
    requires SysInv(s) && Enabled(s, ClaimFrame(p)) && SysInv(Step(s, ClaimFrame(p)))
    requires Enabled(Step(s, ClaimFrame(p)), Map(d, top, 4096 * p, flags))
    ensures var s1 := Step(s, ClaimFrame(p));
            var s2 := Step(s1, Map(d, top, 4096 * p, flags));
            && s2.held == s.held - {d} && Spaces(s2.mem) == Spaces(s.mem)
            && |s2.mem.ram| == |s.mem.ram|
  {
    hide Inv, Mapped, Mappable;
    var s1 := Step(s, ClaimFrame(p));
    DataFrameStep(s, p, true);
    MapStep(s1, d, top, 4096 * p, flags);
    MapSizes(s1, d, top, 4096 * p, flags);
  }

  lemma MapSizes(s: Sys, d: nat, page: nat, phys: nat, flags: nat)
    requires SysInv(s) && Enabled(s, Map(d, page, phys, flags))
    ensures Keeps(s.mem, Step(s, Map(d, page, phys, flags)).mem)
  {
    hide Inv, Mapped, Mappable, Keeps;
    LeafEntry(X86, 1, phys, flags);
    MappedKeeps(X86, s.mem, d, Path(page), 1, LeafFor(phys, flags));
  }

  /** Memory `m'` has the tables of `m` and, of space `d`, some new ones in frames that were free;
    no frame has been given back. */
  ghost predicate NewTables(m: Mem, m': Mem, d: nat) {
    && |m'.taken| == |m.taken| && TakenFrames(m) <= TakenFrames(m')
    && (forall t :: t in m.nodes ==> t in m'.nodes && m'.nodes[t] == m.nodes[t])
    && (forall t :: t in m'.nodes && t !in m.nodes ==>
          m'.nodes[t].height == 1 && m'.nodes[t].parent == d && t !in TakenFrames(m))
  }

  lemma NewTablesTransitive(m: Mem, m1: Mem, m2: Mem, d: nat)
    requires NewTables(m, m1, d) && NewTables(m1, m2, d)
    ensures NewTables(m, m2, d)
  {
    hide TakenFrames;
  }

  lemma StepTables(s: Sys, p: nat, d: nat, top: nat, flags: nat)
    requires SysInv(s) && Enabled(s, ClaimFrame(p)) && SysInv(Step(s, ClaimFrame(p))) && d in Spaces(s.mem)
    requires Enabled(Step(s, ClaimFrame(p)), Map(d, top, 4096 * p, flags))
    ensures var s2 := Step(Step(s, ClaimFrame(p)), Map(d, top, 4096 * p, flags));
            NewTables(s.mem, s2.mem, d) && p in TakenFrames(s2.mem)
  {
    hide Inv, Mapped, Mappable, Others;
    var s1 := Step(s, ClaimFrame(p));
    var op := Map(d, top, 4096 * p, flags);
    DataFrameStep(s, p, true);
    MapStep(s1, d, top, 4096 * p, flags);
    MapSizes(s1, d, top, 4096 * p, flags);
    MapOthers(s1, d, top, 4096 * p, flags);
    TakenSplit(s.mem);
    TakenSplit(s1.mem);
    TakenSplit(Step(s1, op).mem);
    NewlyOwned(s1.mem, Step(s1, op).mem, d);
  }

  lemma NewlyOwned(m: Mem, m': Mem, d: nat)
    requires Inv(X86, m) && Inv(X86, m') && Others(m', d) == Others(m, d) && d in m.nodes && Data(m') == Data(m)
    requires |m'.taken| == |m.taken|
    ensures forall t :: t in m'.nodes && t !in m.nodes ==>
              m'.nodes[t].height == 1 && m'.nodes[t].parent == d && t !in TakenFrames(m)
  {
    forall t | t in m'.nodes && t !in m.nodes
      ensures m'.nodes[t].height == 1 && m'.nodes[t].parent == d && t !in TakenFrames(m)
    {
      assert t !in Others(m', d);
      assert t !in Data(m');
    }
  }

  ghost function StepUp(s: Sys, a: Pages, d: nat, lo: nat, top: nat, hi: nat, flags: nat): (s': Sys)
    requires Zone(s, a, d, lo, top, hi) && top < hi && CanStep(s, d, top) && flags < 4096
    ensures Zone(s', StepMap(a, d, top, LowestFrame(s.mem.taken), flags), d, lo, top + 1, hi)
  {
    StepUpZone(s, a, d, lo, top, hi, flags);
    Step(Step(s, ClaimFrame(LowestFrame(s.mem.taken))), Map(d, top, 4096 * LowestFrame(s.mem.taken), flags))
  }

  // ----- n pages up

  /** None of the next `n` steps runs out of frames or passes the end of the zone. */
  ghost predicate CanGrow(s: Sys, a: Pages, d: nat, lo: nat, top: nat, hi: nat, flags: nat, n: nat)
    requires Zone(s, a, d, lo, top, hi) && flags < 4096
    decreases n
  {
    n == 0 ||
    (top < hi && CanStep(s, d, top) &&
     CanGrow(StepUp(s, a, d, lo, top, hi, flags), StepMap(a, d, top, LowestFrame(s.mem.taken), flags),
             d, lo, top + 1, hi, flags, n - 1))
  }

  /** The system and the finite map after raising the break by `n` pages. */
  ghost function Grown(s: Sys, a: Pages, d: nat, lo: nat, top: nat, hi: nat, flags: nat, n: nat): (r: (Sys, Pages))
    requires Zone(s, a, d, lo, top, hi) && flags < 4096 && CanGrow(s, a, d, lo, top, hi, flags, n)
    decreases n
  {
    if n == 0 then (s, a)
    else
      Grown(StepUp(s, a, d, lo, top, hi, flags), StepMap(a, d, top, LowestFrame(s.mem.taken), flags),
            d, lo, top + 1, hi, flags, n - 1)
  }

  /** Raising the break keeps the zone's invariant. */
  lemma {:induction false} GrownZone(s: Sys, a: Pages, d: nat, lo: nat, top: nat, hi: nat, flags: nat, n: nat)
    requires Zone(s, a, d, lo, top, hi) && flags < 4096 && CanGrow(s, a, d, lo, top, hi, flags, n)
    ensures var (s', a') := Grown(s, a, d, lo, top, hi, flags, n);
            top + n <= hi && Zone(s', a', d, lo, top + n, hi)
    decreases n
  {
    hide Zone, CanStep, StepUp, LowestFrame;
    if n == 0 {
      ZoneTaken(s, a, d, lo, top, hi);
    } else {
      GrownZone(StepUp(s, a, d, lo, top, hi, flags), StepMap(a, d, top, LowestFrame(s.mem.taken), flags),
                d, lo, top + 1, hi, flags, n - 1);
      assert top + 1 + (n - 1) == top + n;
    }
  }

  /** Pages from `top` on, `n` of them, in space `d`. */
  ghost function Band(d: nat, top: nat, n: nat): set<(nat, nat)> {
    set q | top <= q < top + n :: (d, q)
  }

  ghost function Frames(a: Pages, d: nat, top: nat, n: nat): set<nat> {
    set q | top <= q < top + n && (d, q) in a :: a[(d, q)] / 4096
  }

  lemma {:induction false} GrownBand(s: Sys, a: Pages, d: nat, lo: nat, top: nat, hi: nat, flags: nat, n: nat)
    requires Zone(s, a, d, lo, top, hi) && flags < 4096 && CanGrow(s, a, d, lo, top, hi, flags, n)
    ensures var (s', a') := Grown(s, a, d, lo, top, hi, flags, n);
            && a'.Keys == a.Keys + Band(d, top, n)
            && (forall k :: k in a && k !in Band(d, top, n) ==> a'[k] == a[k])
            && Data(s'.mem) == Data(s.mem) + Frames(a', d, top, n)
            && Data(s.mem) !! Frames(a', d, top, n)
            && Spaces(s'.mem) == Spaces(s.mem)
            && s'.held == if n == 0 then s.held else s.held - {d}
    decreases n
  {
    hide Zone, Data, Spaces, LowestFrame, CanStep, Step, Band, Frames;
    if n == 0 {
      NoBand(a, d, top);
    } else {
      StepUpZone(s, a, d, lo, top, hi, flags);
      var p := LowestFrame(s.mem.taken);
      var s1, a1 := StepUp(s, a, d, lo, top, hi, flags), StepMap(a, d, top, p, flags);
      GrownBand(s1, a1, d, lo, top + 1, hi, flags, n - 1);
      var (s', a') := Grown(s1, a1, d, lo, top + 1, hi, flags, n - 1);
      LeafForParts(4096 * p, flags);
      BandGrows(a, a', d, top, n, LeafFor(4096 * p, flags), Data(s.mem), Data(s'.mem));
    }
  }

  /** Every new page has the flags asked for, and is present. */
  lemma {:induction false} GrownFlags(s: Sys, a: Pages, d: nat, lo: nat, top: nat, hi: nat, flags: nat, n: nat)
    requires Zone(s, a, d, lo, top, hi) && flags < 4096 && CanGrow(s, a, d, lo, top, hi, flags, n)
    ensures var (s', a') := Grown(s, a, d, lo, top, hi, flags, n);
            forall q :: top <= q < top + n ==>
              (d, q) in a' && a'[(d, q)] % 4096 == if flags % 2 == 1 then flags else flags + 1
    decreases n
  {
    hide Zone, Data, Spaces, LowestFrame, CanStep, Step, Band, Frames, LeafFor;
    if n == 0 {
    } else {
      var p := LowestFrame(s.mem.taken);
      var s1, a1 := StepUp(s, a, d, lo, top, hi, flags), StepMap(a, d, top, p, flags);
      GrownFlags(s1, a1, d, lo, top + 1, hi, flags, n - 1);
      GrownBand(s1, a1, d, lo, top + 1, hi, flags, n - 1);
      LeafForParts(4096 * p, flags);
      assert (d, top) !in Band(d, top + 1, n - 1) by {
        BandSplit(d, top, n);
      }
    }
  }

  /** One step up takes one free frame for data, and may make one table of another. */
  lemma StepUpTables(s: Sys, a: Pages, d: nat, lo: nat, top: nat, hi: nat, flags: nat)
    requires Zone(s, a, d, lo, top, hi) && top < hi && CanStep(s, d, top) && flags < 4096
    ensures var p, s' := LowestFrame(s.mem.taken), StepUp(s, a, d, lo, top, hi, flags);
            NewTables(s.mem, s'.mem, d) && p !in TakenFrames(s.mem) && p in TakenFrames(s'.mem)
  {
    hide Zone, Data, Spaces, LowestFrame, CanStep, Step, TakenFrames, SysInv, Enabled;
    StepUpZone(s, a, d, lo, top, hi, flags);
    ZoneFacts(s, a, d, lo, top, hi);
    StepTables(s, LowestFrame(s.mem.taken), d, top, flags);
    ClaimedFree(s, LowestFrame(s.mem.taken));
  }

  /** The frames behind the new pages are distinct and none was taken, for data or for a table;
    the tables there were stay, and the ones made on the way were free frames. */
  lemma {:induction false} GrownFrames(s: Sys, a: Pages, d: nat, lo: nat, top: nat, hi: nat, flags: nat, n: nat)
    requires Zone(s, a, d, lo, top, hi) && flags < 4096 && CanGrow(s, a, d, lo, top, hi, flags, n)
    ensures var (s', a') := Grown(s, a, d, lo, top, hi, flags, n);
            && NewTables(s.mem, s'.mem, d)
            && TakenFrames(s.mem) !! Frames(a', d, top, n) && |Frames(a', d, top, n)| == n
    decreases n
  {
    hide Zone, Data, Spaces, LowestFrame, CanStep, Step, StepUp, Band, Frames, TakenFrames, SysInv, Enabled;
    if n == 0 {
      NoBand(a, d, top);
      assert NewTables(s.mem, s.mem, d);
    } else {
      var p := LowestFrame(s.mem.taken);
      var s1, a1 := StepUp(s, a, d, lo, top, hi, flags), StepMap(a, d, top, p, flags);
      StepUpTables(s, a, d, lo, top, hi, flags);
      GrownFrames(s1, a1, d, lo, top + 1, hi, flags, n - 1);
      GrownBand(s1, a1, d, lo, top + 1, hi, flags, n - 1);
      var (s', a') := Grown(s1, a1, d, lo, top + 1, hi, flags, n - 1);
      NewTablesTransitive(s.mem, s1.mem, s'.mem, d);
      BandSplit(d, top, n);
      FramesSplit(a', d, top, n);
      LeafForParts(4096 * p, flags);
      OneMore(TakenFrames(s.mem), TakenFrames(s1.mem), p, Frames(a', d, top + 1, n - 1));
    }
  }

  lemma ZoneFacts(s: Sys, a: Pages, d: nat, lo: nat, top: nat, hi: nat)
    requires Zone(s, a, d, lo, top, hi)
    ensures SysInv(s) && d in Spaces(s.mem)
  {
  }

  lemma ClaimedFree(s: Sys, p: nat)
    requires SysInv(s) && Enabled(s, ClaimFrame(p))
    ensures p !in TakenFrames(s.mem)
  {
  }

  lemma OneMore(taken: set<nat>, taken1: set<nat>, p: nat, rest: set<nat>)
    requires taken <= taken1 && p in taken1 && p !in taken && taken1 !! rest
    ensures taken !! {p} + rest && |{p} + rest| == |rest| + 1
  {
    assert {p} + rest - {p} == rest;
  }

  /** Raising the break maps exactly the new pages, keeps every other mapping, and takes for data
    exactly the new pages' frames, as many as pages and none of them taken before.  The new pages have
    the flags asked for.  Tables stay, and new ones sit in frames that were free. */
  lemma GrownMaps(s: Sys, a: Pages, d: nat, lo: nat, top: nat, hi: nat, flags: nat, n: nat)
    requires Zone(s, a, d, lo, top, hi) && flags < 4096 && CanGrow(s, a, d, lo, top, hi, flags, n)
    ensures var (s', a') := Grown(s, a, d, lo, top, hi, flags, n);
            && a'.Keys == a.Keys + Band(d, top, n)
            && (forall k :: k in a && k !in Band(d, top, n) ==> a'[k] == a[k])
            && Data(s'.mem) == Data(s.mem) + Frames(a', d, top, n)
            && TakenFrames(s.mem) !! Frames(a', d, top, n) && |Frames(a', d, top, n)| == n
            && NewTables(s.mem, s'.mem, d)
            && (forall q :: top <= q < top + n ==>
                  (d, q) in a' && a'[(d, q)] % 4096 == if flags % 2 == 1 then flags else flags + 1)
            && Spaces(s'.mem) == Spaces(s.mem)
            && s'.held == if n == 0 then s.held else s.held - {d}
  {
    hide Zone, Data, Spaces, CanGrow, Grown, Band, Frames, TakenFrames, NewTables;
    GrownBand(s, a, d, lo, top, hi, flags, n);
    GrownFlags(s, a, d, lo, top, hi, flags, n);
    GrownFrames(s, a, d, lo, top, hi, flags, n);
  }

  /** Bookkeeping of one step of growth followed by `n - 1` more. */
  lemma BandGrows(a: Pages, a': Pages, d: nat, top: nat, n: nat, e: nat, data: set<nat>, data': set<nat>)
    requires n > 0 && e / 4096 !in data
    requires var a1 := a[(d, top) := e];
             && a'.Keys == a1.Keys + Band(d, top + 1, n - 1)
             && (forall k :: k in a1 && k !in Band(d, top + 1, n - 1) ==> a'[k] == a1[k])
    requires data' == data + {e / 4096} + Frames(a', d, top + 1, n - 1)
    requires data + {e / 4096} !! Frames(a', d, top + 1, n - 1)
    ensures a'.Keys == a.Keys + Band(d, top, n)
    ensures forall k :: k in a && k !in Band(d, top, n) ==> a'[k] == a[k]
    ensures data' == data + Frames(a', d, top, n) && data !! Frames(a', d, top, n)
  {
    BandSplit(d, top, n);
    FramesSplit(a', d, top, n);
  }

  lemma NoBand(a: Pages, d: nat, top: nat)
    ensures Band(d, top, 0) == {} && Frames(a, d, top, 0) == {}
  {
  }

  lemma BandSplit(d: nat, top: nat, n: nat)
    requires n > 0
    ensures Band(d, top, n) == {(d, top)} + Band(d, top + 1, n - 1) && (d, top) !in Band(d, top + 1, n - 1)
  {
  }

  lemma FramesSplit(a: Pages, d: nat, top: nat, n: nat)
    requires n > 0 && (d, top) in a
    ensures Frames(a, d, top, n) == {a[(d, top)] / 4096} + Frames(a, d, top + 1, n - 1)
  {
  }

  // ----- one page down

  /** Looking up, unmapping and giving back the last page. */
  ghost function StepDown(s: Sys, a: Pages, d: nat, lo: nat, top: nat, hi: nat): (s': Sys)
    requires Zone(s, a, d, lo, top, hi) && lo < top
    ensures Zone(s', a - {(d, top - 1)}, d, lo, top - 1, hi)
  {
    StepDownZone(s, a, d, lo, top, hi);
    var s1 := Step(s, GetMapped(d, top - 1));
    var s2 := Step(s1, Unmap(d, top - 1));
    Step(s2, ReturnFrame(a[(d, top - 1)] / 4096))
  }

  lemma MappedPage(s: Sys, a: Pages, d: nat, page: nat)
    requires SysInv(s) && Refines(s.mem, a) && d in Spaces(s.mem) && page < 0x10_0000 && (d, page) in a
    ensures TablePresent(s.mem, d, page)
    ensures AddressOf(Lookup(X86, s.mem.ram, d, Path(page))) == 4096 * (a[(d, page)] / 4096)
  {
    hide Inv, Lookup;
    assert Answers(s.mem, a, d, page);
    if !TablePresent(s.mem, d, page) {
      NoTable(s.mem, d, page);
    }
  }

  lemma StepDownZone(s: Sys, a: Pages, d: nat, lo: nat, top: nat, hi: nat)
    requires Zone(s, a, d, lo, top, hi) && lo < top
    ensures var page, f := top - 1, a[(d, top - 1)] / 4096;
            && AddressOf(Lookup(X86, s.mem.ram, d, Path(page))) == 4096 * f
            && Enabled(s, GetMapped(d, page)) && TablePresent(s.mem, d, page)
            && var s1 := Step(s, GetMapped(d, page));
               && SysInv(s1) && Enabled(s1, Unmap(d, page))
               && var s2 := Step(s1, Unmap(d, page));
                  && SysInv(s2) && Enabled(s2, ReturnFrame(f))
                  && var s3 := Step(s2, ReturnFrame(f));
                     && Zone(s3, a - {(d, page)}, d, lo, page, hi)
                     && Data(s3.mem) == Data(s.mem) - {f} && s3.held == s.held - {d}
                     && Spaces(s3.mem) == Spaces(s.mem) && s3.mem.nodes == s.mem.nodes
                     && |s3.mem.taken| == |s.mem.taken|
  {
    hide Inv, Refines, Lookup, TablePresent, Data;
    var page, f := top - 1, a[(d, top - 1)] / 4096;
    MappedPage(s, a, d, page);
    var s1 := Step(s, GetMapped(d, page));
    StepKeeps(s, GetMapped(d, page));
    StepKeeps(s1, Unmap(d, page));
    StepRefines(s1, a, Unmap(d, page));
    UnmapStep(s1, d, page);
    var s2 := Step(s1, Unmap(d, page));
    StepKeeps(s2, ReturnFrame(f));
    DataFrameStep(s2, f, false);
    StepRefines(s2, a - {(d, page)}, ReturnFrame(f));
    assert s2.mem.taken == s.mem.taken;
  }

  // ----- n pages down, and back

  ghost function Shrunk(s: Sys, a: Pages, d: nat, lo: nat, top: nat, hi: nat, n: nat): (r: (Sys, Pages))
    requires Zone(s, a, d, lo, top, hi) && n <= top - lo
    ensures Zone(r.0, r.1, d, lo, top - n, hi)
    decreases n
  {
    if n == 0 then (s, a)
    else Shrunk(StepDown(s, a, d, lo, top, hi), a - {(d, top - 1)}, d, lo, top - 1, hi, n - 1)
  }

  /** Lowering the break unmaps exactly the pages above it and gives back exactly their frames. */
  lemma {:induction false} ShrunkMaps(s: Sys, a: Pages, d: nat, lo: nat, top: nat, hi: nat, n: nat)
    requires Zone(s, a, d, lo, top, hi) && n <= top - lo
    ensures var (s', a') := Shrunk(s, a, d, lo, top, hi, n);
            && a' == a - Band(d, top - n, n)
            && Data(s'.mem) == Data(s.mem) - Frames(a, d, top - n, n)
            && Spaces(s'.mem) == Spaces(s.mem) && s'.mem.nodes == s.mem.nodes
            && |s'.mem.taken| == |s.mem.taken|
    decreases n
  {
    hide Zone, Data, Spaces, Step, Band, Frames;
    if n == 0 {
      NoBand(a, d, top);
    } else {
      StepDownZone(s, a, d, lo, top, hi);
      TopPage(s, a, d, lo, top, hi);
      var a1 := a - {(d, top - 1)};
      ShrunkMaps(StepDown(s, a, d, lo, top, hi), a1, d, lo, top - 1, hi, n - 1);
      BandShrinks(a, d, top, n, Data(s.mem));
    }
  }

  lemma TopPage(s: Sys, a: Pages, d: nat, lo: nat, top: nat, hi: nat)
    requires Zone(s, a, d, lo, top, hi) && lo < top
    ensures (d, top - 1) in a
  {
  }

  lemma BandShrinks(a: Pages, d: nat, top: nat, n: nat, data: set<nat>)
    requires 0 < n <= top && (d, top - 1) in a
    ensures var a1 := a - {(d, top - 1)};
            && a1 - Band(d, top - n, n - 1) == a - Band(d, top - n, n)
            && data - {a[(d, top - 1)] / 4096} - Frames(a1, d, top - n, n - 1) == data - Frames(a, d, top - n, n)
  {
    var a1 := a - {(d, top - 1)};
    assert Band(d, top - n, n) == Band(d, top - n, n - 1) + {(d, top - 1)};
    forall q | top - n <= q < top - 1
      ensures (d, q) in a1 <==> (d, q) in a
      ensures (d, q) in a ==> a1[(d, q)] == a[(d, q)]
    {
    }
    assert Frames(a, d, top - n, n) == Frames(a1, d, top - n, n - 1) + {a[(d, top - 1)] / 4096};
  }

  /** The break raised by `n` pages and lowered again. */
  ghost function ThereAndBack(s: Sys, a: Pages, d: nat, lo: nat, top: nat, hi: nat, flags: nat, n: nat):
      (r: (Sys, Pages))
    requires Zone(s, a, d, lo, top, hi) && flags < 4096 && CanGrow(s, a, d, lo, top, hi, flags, n)
    ensures Zone(r.0, r.1, d, lo, top, hi)
  {
    GrownZone(s, a, d, lo, top, hi, flags, n);
    var g := Grown(s, a, d, lo, top, hi, flags, n);
    Shrunk(g.0, g.1, d, lo, top + n, hi, n)
  }

  /** Raising the break and lowering it again restores every mapping of every space and the frame
    map, except for page tables made on the way up: all tables there were stay, and the frames
    taken besides are new tables of the space, in frames that were free. */
  lemma UpAndDown(s: Sys, a: Pages, d: nat, lo: nat, top: nat, hi: nat, flags: nat, n: nat)
    requires Zone(s, a, d, lo, top, hi) && flags < 4096 && CanGrow(s, a, d, lo, top, hi, flags, n)
    ensures var (s2, a2) := ThereAndBack(s, a, d, lo, top, hi, flags, n);
            && a2 == a && Refines(s2.mem, a) && Spaces(s2.mem) == Spaces(s.mem)
            && NewTables(s.mem, s2.mem, d)
            && TakenFrames(s2.mem) == TakenFrames(s.mem) + (s2.mem.nodes.Keys - s.mem.nodes.Keys)
  {
    hide Zone, Data, Spaces, CanStep, Shrunk, CanGrow, Inv, Refines, TakenFrames, Band, Frames, Grown, SysInv;
    ZoneTaken(s, a, d, lo, top, hi);
    var (s1, a1) := Grown(s, a, d, lo, top, hi, flags, n);
    GrownZone(s, a, d, lo, top, hi, flags, n);
    GrownMaps(s, a, d, lo, top, hi, flags, n);
    ShrunkMaps(s1, a1, d, lo, top + n, hi, n);
    var (s2, a2) := Shrunk(s1, a1, d, lo, top + n, hi, n);
    NoneAbove(s, a, d, lo, top, hi, n);
    BandBack(a, a1, Band(d, top, n));
    ZoneTaken(s1, a1, d, lo, top + n, hi);
    DataBack(Data(s.mem), Frames(a1, d, top, n), s.mem.nodes.Keys);
    ZoneTaken(s2, a2, d, lo, top, hi);
  }

  lemma BandBack(a: Pages, a1: Pages, band: set<(nat, nat)>)
    requires a1.Keys == a.Keys + band
    requires forall k :: k in a ==> k !in band && a1[k] == a[k]
    ensures a1 - band == a
  {
    assert (a1 - band).Keys == a.Keys;
  }

  lemma DataBack(data: set<nat>, frames: set<nat>, tables: set<nat>)
    requires data + tables !! frames
    ensures data + frames - frames == data
  {
  }

  lemma ZoneTaken(s: Sys, a: Pages, d: nat, lo: nat, top: nat, hi: nat)
    requires Zone(s, a, d, lo, top, hi)
    ensures TakenFrames(s.mem) == Data(s.mem) + s.mem.nodes.Keys && Refines(s.mem, a) && lo <= top <= hi && SysInv(s)
  {
    TakenSplit(s.mem);
  }

  lemma NoneAbove(s: Sys, a: Pages, d: nat, lo: nat, top: nat, hi: nat, n: nat)
    requires Zone(s, a, d, lo, top, hi) && top + n <= hi
    ensures forall k :: k in a ==> k !in Band(d, top, n)
  {
  }

  // ----- the words behind the zone

  /** Making or filling page tables never touches a data frame. */
  lemma WordsKept(s: Sys, d: nat, page: nat, phys: nat, flags: nat, f: nat)
    requires SysInv(s) && Enabled(s, Map(d, page, phys, flags)) && f in Data(s.mem) && f < |s.mem.ram|
    ensures var m' := Step(s, Map(d, page, phys, flags)).mem;
            |m'.ram| == |s.mem.ram| && m'.ram[f] == s.mem.ram[f]
  {
    hide Inv, CanTake, Open, Missing, Present, Entry, FrameOf, EmptyTable;
    var p := Path(page);
    var m1 := WithChild(X86, s.mem, d, p[0]);
    WithTablesKeeps(X86, s.mem, d, p, 1);
    assert WithTables(X86, s.mem, d, p, 1) == WithTables(X86, m1, FrameOf(Entry(m1.ram, d, p[0])), p[1..], 1) == m1;
    WithChildKeeps(X86, s.mem, d, p, 1);
  }

  /** Raising the break changes no word behind a page that was mapped before: the memory below
    the old break is stable while the heap grows. */
  lemma {:induction false} GrownWords(s: Sys, a: Pages, d: nat, lo: nat, top: nat, hi: nat, flags: nat, n: nat, f: nat)
    requires Zone(s, a, d, lo, top, hi) && flags < 4096 && CanGrow(s, a, d, lo, top, hi, flags, n)
    requires f in Data(s.mem) && f < |s.mem.ram|
    ensures var m' := Grown(s, a, d, lo, top, hi, flags, n).0.mem;
            |m'.ram| == |s.mem.ram| && m'.ram[f] == s.mem.ram[f]
    decreases n
  {
    hide Zone, Data, Spaces, CanStep, Inv, Mapped, Mappable;
    if n == 0 {
    } else {
      var p := LowestFrame(s.mem.taken);
      StepUpZone(s, a, d, lo, top, hi, flags);
      ZoneTaken(s, a, d, lo, top, hi);
      DataFrameStep(s, p, true);
      WordsKept(Step(s, ClaimFrame(p)), d, top, 4096 * p, flags, f);
      GrownWords(StepUp(s, a, d, lo, top, hi, flags), StepMap(a, d, top, p, flags),
                 d, lo, top + 1, hi, flags, n - 1, f);
    }
  }

  // ----- how many frames suffice

  lemma {:induction false} CanTakeFewer(s: seq<bool>, n: nat, k: nat)
    requires CanTake(s, n) && k <= n
    ensures CanTake(s, k)
    decreases n
  {
    hide LowestFrame, HasFrame;
    if k == 0 {
    } else {
      CanTakeFewer(s[LowestFrame(s) := true], n - 1, k - 1);
    }
  }

  lemma StepUpTakes(s: Sys, a: Pages, d: nat, lo: nat, top: nat, hi: nat, flags: nat, n: nat)
    requires Zone(s, a, d, lo, top, hi) && top < hi && CanStep(s, d, top) && flags < 4096
    requires n >= 2 && CanTake(s.mem.taken, n)
    ensures CanTake(StepUp(s, a, d, lo, top, hi, flags).mem.taken, n - 2)
  {
    hide Zone, LowestFrame, HasFrame, Inv, Entry, Refines, Data, Missing, Open;
    ZoneTaken(s, a, d, lo, top, hi);
    StepUpZone(s, a, d, lo, top, hi, flags);
    var p := LowestFrame(s.mem.taken);
    var taken1 := s.mem.taken[p := true];
    var s1 := Step(s, ClaimFrame(p));
    assert s1.mem.taken == taken1;
    CanTakeFewer(taken1, n - 1, n - 2);
    var c := WithChild(X86, s1.mem, d, Path(top)[0]);
    assert WithTables(X86, s1.mem, d, Path(top), 1)
        == WithTables(X86, c, FrameOf(Entry(c.ram, d, Path(top)[0])), Path(top)[1..], 1) == c;
    assert c.taken == taken1 || c.taken == taken1[LowestFrame(taken1) := true];
  }

  /** Two free frames for each page are enough to raise the break: one for the page and at most
    one for a page table. */
  lemma {:induction false} TwoFramesPerPage(s: Sys, a: Pages, d: nat, lo: nat, top: nat, hi: nat, flags: nat, n: nat)
    requires Zone(s, a, d, lo, top, hi) && flags < 4096 && top + n <= hi
    requires CanTake(s.mem.taken, 2 * n)
    ensures CanGrow(s, a, d, lo, top, hi, flags, n)
    decreases n
  {
    hide Zone, LowestFrame, HasFrame, Inv;
    if n == 0 {
    } else {
      CanStepWith(s, d, top, 2 * n, hi, lo, a);
      StepUpTakes(s, a, d, lo, top, hi, flags, 2 * n);
      TwoFramesPerPage(StepUp(s, a, d, lo, top, hi, flags), StepMap(a, d, top, LowestFrame(s.mem.taken), flags),
                       d, lo, top + 1, hi, flags, n - 1);
    }
  }

  lemma CanStepWith(s: Sys, d: nat, top: nat, n: nat, hi: nat, lo: nat, a: Pages)
    requires Zone(s, a, d, lo, top, hi) && top < hi && n >= 2 && CanTake(s.mem.taken, n)
    ensures CanStep(s, d, top)
  {
    hide LowestFrame, HasFrame, Inv, Entry, Refines;
    var taken1 := s.mem.taken[LowestFrame(s.mem.taken) := true];
    assert Missing(s.mem.ram, d, Path(top), 1) <= 1;
    CanTakeFewer(taken1, n - 1, Missing(s.mem.ram, d, Path(top), 1));
  }

  /** A new space holds any zone with its break at the start, and from there the break can be
    raised by `n` pages if one and twice `n` frames can be claimed. */
  lemma FreshZone(s: Sys, a: Pages, lo: nat, hi: nat, flags: nat, n: nat)
    requires SysInv(s) && Refines(s.mem, a) && CanTake(s.mem.taken, 1 + 2 * n)
    requires lo + n <= hi <= 0x10_0000 && flags < 4096
    ensures Enabled(s, NewSpace)
    ensures var s', d := Step(s, NewSpace), LowestFrame(s.mem.taken);
            Zone(s', a, d, lo, lo, hi) && CanGrow(s', a, d, lo, lo, hi, flags, n)
  {
    hide Inv, LowestFrame, HasFrame, CanGrow, WithRoot, Data;
    var s', d := Step(s, NewSpace), LowestFrame(s.mem.taken);
    NewStep(s);
    StepKeeps(s, NewSpace);
    StepRefines(s, a, NewSpace);
    assert forall q :: (d, q) !in a;
    NewTaken(s);
    TwoFramesPerPage(s', a, d, lo, lo, hi, flags, n);
  }
}
