/** The words that a zone's mappings show, and the zone among other users of the machine. */
module ZoneWords {
  import opened FrameMap
  import opened Entries
  import opened PageTree
  import opened AddressSpaces
  import opened BreakZone

  // ----- the words between start and break

  /** The words of the pages [lo, top), one after the other, as the mappings show them. */
  ghost function Words(ram: seq<seq<nat>>, a: Pages, d: nat, lo: nat, top: nat): seq<nat>
    decreases top
  {
    if top <= lo then []
    else
      Words(ram, a, d, lo, top - 1)
      + if (d, top - 1) in a && a[(d, top - 1)] / 4096 < |ram| then ram[a[(d, top - 1)] / 4096] else []
  }

  /** Page `q` shows the same words before and after. */
  ghost predicate SameWords(ram: seq<seq<nat>>, ram': seq<seq<nat>>, a: Pages, a': Pages, k: (nat, nat)) {
    && k in a && k in a' && a'[k] == a[k]
    && a[k] / 4096 < |ram| == |ram'| && ram'[a[k] / 4096] == ram[a[k] / 4096]
  }

  lemma {:induction false} WordsSame(
      ram: seq<seq<nat>>, ram': seq<seq<nat>>, a: Pages, a': Pages, d: nat, lo: nat, top: nat)
    requires forall q :: lo <= q < top ==> SameWords(ram, ram', a, a', (d, q))
    requires forall f :: 0 <= f < |ram| ==> |ram[f]| == 1024
    ensures Words(ram', a', d, lo, top) == Words(ram, a, d, lo, top)
    ensures lo <= top ==> |Words(ram, a, d, lo, top)| == 1024 * (top - lo)
    decreases top
  {
    if top <= lo {
    } else {
      assert SameWords(ram, ram', a, a', (d, top - 1));
      WordsSame(ram, ram', a, a', d, lo, top - 1);
    }
  }

  lemma {:induction false} WordsPrefix(ram: seq<seq<nat>>, a: Pages, d: nat, lo: nat, top: nat, n: nat)
    requires lo <= top
    ensures Words(ram, a, d, lo, top) <= Words(ram, a, d, lo, top + n)
  {
    if n == 0 {
    } else {
      WordsPrefix(ram, a, d, lo, top, n - 1);
    }
  }

  /** To whoever uses the zone as one stretch of words, raising the break keeps all words and adds
    1024 for each page: this is the memory that the heap takes its block list from. */
  lemma GrownKeepsWords(s: Sys, a: Pages, d: nat, lo: nat, top: nat, hi: nat, flags: nat, n: nat)
    requires Zone(s, a, d, lo, top, hi) && flags < 4096 && CanGrow(s, a, d, lo, top, hi, flags, n)
    ensures var (s', a') := Grown(s, a, d, lo, top, hi, flags, n);
            && Words(s.mem.ram, a, d, lo, top) <= Words(s'.mem.ram, a', d, lo, top + n)
            && |Words(s.mem.ram, a, d, lo, top)| == 1024 * (top - lo)
            && |Words(s'.mem.ram, a', d, lo, top + n)| == 1024 * (top + n - lo)
  {
    hide Words, Data, Spaces, CanGrow, Grown, Refines, SysInv, Frames, TakenFrames, NewTables;
    var (s', a') := Grown(s, a, d, lo, top, hi, flags, n);
    GrownZone(s, a, d, lo, top, hi, flags, n);
    GrownMaps(s, a, d, lo, top, hi, flags, n);
    forall q | lo <= q < top
      ensures a[(d, q)] / 4096 < |s.mem.ram| == |s'.mem.ram|
      ensures s'.mem.ram[a[(d, q)] / 4096] == s.mem.ram[a[(d, q)] / 4096]
    {
      GrownWords(s, a, d, lo, top, hi, flags, n, a[(d, q)] / 4096);
    }
    RamShape(s);
    RamShape(s');
    assert forall q :: lo <= q < top ==> (d, q) in a && (d, q) !in Band(d, top, n);
    assert forall q :: lo <= q < top ==> SameWords(s.mem.ram, s'.mem.ram, a, a', (d, q));
    assert forall q :: lo <= q < top + n ==> SameWords(s'.mem.ram, s'.mem.ram, a', a', (d, q));
    WordsSame(s.mem.ram, s'.mem.ram, a, a', d, lo, top);
    WordsSame(s'.mem.ram, s'.mem.ram, a', a', d, lo, top + n);
    WordsPrefix(s'.mem.ram, a', d, lo, top, n);
  }

  lemma RamShape(s: Sys)
    requires SysInv(s)
    ensures forall f :: 0 <= f < |s.mem.ram| ==> |s.mem.ram[f]| == 1024
  {
  }

  // ----- the zone among other users of the machine

  /** The operation neither touches a page of the zone nor returns a frame behind one. */
  ghost predicate Foreign(a: Pages, d: nat, lo: nat, top: nat, hi: nat, op: Op) {
    match op
    case Map(e, q, _, _) => e != d || q < lo || hi <= q
    case Unmap(e, q) => e != d || q < lo || hi <= q
    case DeleteSpace(e) => e != d
    case ReturnFrame(p) => forall q :: lo <= q < top && (d, q) in a ==> a[(d, q)] / 4096 != p
    case _ => true
  }

  /** Whatever others do to the machine, the zone stays as it is. */
  lemma ForeignKeeps(s: Sys, a: Pages, d: nat, lo: nat, top: nat, hi: nat, op: Op)
    requires Zone(s, a, d, lo, top, hi) && Enabled(s, op) && Foreign(a, d, lo, top, hi, op)
    ensures Zone(Step(s, op), AbsStep(a, op), d, lo, top, hi)
  {
    hide Inv, Refines, Mappable, Mapped, Data, Spaces, WithRoot, WithoutRoot, WriteEntry, LowestFrame, LeafFor;
    StepKeeps(s, op);
    StepRefines(s, a, op);
    SpaceKept(s, d, op);
    RamSize(s, op);
  }

  lemma SpaceKept(s: Sys, d: nat, op: Op)
    requires SysInv(s) && Enabled(s, op) && d in Spaces(s.mem) && op != DeleteSpace(d)
    ensures d in Spaces(Step(s, op).mem)
  {
    hide Inv, Mappable, Mapped;
    match op
    case NewSpace => NewStep(s);
    case Map(e, page, phys, flags) => MapStep(s, e, page, phys, flags);
    case DeleteSpace(e) => DeleteStep(s, e);
    case _ =>
  }

  lemma RamSize(s: Sys, op: Op)
    requires SysInv(s) && Enabled(s, op)
    ensures |Step(s, op).mem.ram| == |s.mem.ram|
  {
    hide Inv, Mappable, Mapped;
    match op
    case NewSpace => NewSpaceFits(s.mem);
    case Map(e, page, phys, flags) => MapSizes(s, e, page, phys, flags);
    case _ =>
  }

  // ----- one word

  lemma {:induction false} WordsAt(ram: seq<seq<nat>>, a: Pages, d: nat, lo: nat, top: nat, k: nat)
    requires lo <= top && k < 1024 * (top - lo)
    requires forall q :: lo <= q < top ==> SameWords(ram, ram, a, a, (d, q))
    requires forall f :: 0 <= f < |ram| ==> |ram[f]| == 1024
    ensures |Words(ram, a, d, lo, top)| == 1024 * (top - lo)
    ensures SameWords(ram, ram, a, a, (d, lo + k / 1024))
    ensures Words(ram, a, d, lo, top)[k] == ram[a[(d, lo + k / 1024)] / 4096][k % 1024]
    decreases top
  {
    WordsSame(ram, ram, a, a, d, lo, top);
    WordsSame(ram, ram, a, a, d, lo, top - 1);
    assert SameWords(ram, ram, a, a, (d, top - 1));
    if k < 1024 * (top - 1 - lo) {
      WordsAt(ram, a, d, lo, top - 1, k);
    } else {
      assert lo + k / 1024 == top - 1 && k % 1024 == k - 1024 * (top - 1 - lo);
    }
  }

  /** The address of the `k`-th word of the zone. */
  function WordAddress(lo: nat, k: nat): nat {
    4096 * lo + 4 * k
  }

  lemma WordPage(lo: nat, k: nat)
    ensures WordAddress(lo, k) / 4096 == lo + k / 1024 && WordAddress(lo, k) % 4096 / 4 == k % 1024
  {
  }

  /** The store of a word to an address, through the mapping of its page. */
  function StoreAt(a: Pages, d: nat, address: nat, v: nat): Op
    requires (d, address / 4096) in a
  {
    Store(a[(d, address / 4096)] / 4096, address % 4096 / 4, v)
  }

  /** No two pages have the same frame. */
  ghost predicate Distinct(a: Pages, d: nat, lo: nat, top: nat) {
    forall q, q' :: lo <= q < q' < top && (d, q) in a && (d, q') in a ==> a[(d, q)] / 4096 != a[(d, q')] / 4096
  }

  /** What is needed of a zone to reason about its words. */
  lemma ZoneShows(s: Sys, a: Pages, d: nat, lo: nat, top: nat, hi: nat)
    requires Zone(s, a, d, lo, top, hi)
    ensures SysInv(s) && lo <= top
    ensures forall f :: 0 <= f < |s.mem.ram| ==> |s.mem.ram[f]| == 1024
    ensures forall q :: lo <= q < top ==>
              SameWords(s.mem.ram, s.mem.ram, a, a, (d, q)) && a[(d, q)] / 4096 in Data(s.mem)
    ensures Distinct(a, d, lo, top)
  {
    hide Refines, Data, Spaces;
    RamShape(s);
    forall q, q' | lo <= q < q' < top && (d, q) in a && (d, q') in a
      ensures a[(d, q)] / 4096 != a[(d, q')] / 4096
    {
      assert a[(d, q)] != a[(d, q')];
    }
  }

  lemma StoreWords(ram: seq<seq<nat>>, a: Pages, d: nat, lo: nat, top: nat, k: nat, v: nat)
    requires lo <= top && k < 1024 * (top - lo)
    requires forall q :: lo <= q < top ==> SameWords(ram, ram, a, a, (d, q))
    requires Distinct(a, d, lo, top)
    requires forall f :: 0 <= f < |ram| ==> |ram[f]| == 1024
    ensures SameWords(ram, ram, a, a, (d, lo + k / 1024)) && |Words(ram, a, d, lo, top)| == 1024 * (top - lo)
    ensures Words(SetEntry(ram, a[(d, lo + k / 1024)] / 4096, k % 1024, v), a, d, lo, top)
            == Words(ram, a, d, lo, top)[k := v]
  {
    hide Words;
    WordsAt(ram, a, d, lo, top, k);
    var f := a[(d, lo + k / 1024)] / 4096;
    var ram' := SetEntry(ram, f, k % 1024, v);
    assert forall q :: lo <= q < top ==> SameWords(ram', ram', a, a, (d, q)) by {
      assert forall q :: lo <= q < top ==> SameWords(ram, ram, a, a, (d, q));
    }
    WordsAt(ram', a, d, lo, top, k);
    forall j | 0 <= j < 1024 * (top - lo)
      ensures Words(ram', a, d, lo, top)[j] == Words(ram, a, d, lo, top)[k := v][j]
    {
      WordsAt(ram, a, d, lo, top, j);
      WordsAt(ram', a, d, lo, top, j);
      OtherWord(ram, a[(d, lo + j / 1024)] / 4096, j % 1024, f, k % 1024, v);
      if j != k && j / 1024 != k / 1024 {
        assert a[(d, lo + j / 1024)] / 4096 != f;
      }
    }
  }

  lemma OtherWord(ram: seq<seq<nat>>, g: nat, j: nat, f: nat, i: nat, v: nat)
    requires f < |ram| && g < |ram| && i < |ram[f]| && j < |ram[g]|
    ensures |SetEntry(ram, f, i, v)[g]| == |ram[g]|
    ensures SetEntry(ram, f, i, v)[g][j] == if g == f && j == i then v else ram[g][j]
  {
    assert Entry(SetEntry(ram, f, i, v), g, j) == if g == f && j == i then v else Entry(ram, g, j);
  }

  /** A store anywhere between start and break lands in a mapped page.  It changes that one word of
    the zone and nothing else that matters: no table, no mapping, no frame's state. */
  lemma StoreLands(s: Sys, a: Pages, d: nat, lo: nat, top: nat, hi: nat, k: nat, v: nat)
    requires Zone(s, a, d, lo, top, hi) && k < 1024 * (top - lo)
    ensures (d, WordAddress(lo, k) / 4096) in a && lo <= WordAddress(lo, k) / 4096 < top
    ensures var op := StoreAt(a, d, WordAddress(lo, k), v);
            && Enabled(s, op) && op.f !in s.mem.nodes
            && var s' := Step(s, op);
               && Zone(s', a, d, lo, top, hi)
               && |Words(s.mem.ram, a, d, lo, top)| == 1024 * (top - lo)
               && Words(s'.mem.ram, a, d, lo, top) == Words(s.mem.ram, a, d, lo, top)[k := v]
               && s'.mem.taken == s.mem.taken && s'.mem.nodes == s.mem.nodes && s'.held == s.held
               && PagesOf(s'.mem) == PagesOf(s.mem)
               && forall t :: t in s.mem.nodes ==> t < |s.mem.ram| && s'.mem.ram[t] == s.mem.ram[t]
  {
    hide Zone, Words, Inv, Refines, PagesOf, WordAddress;
    ZoneShows(s, a, d, lo, top, hi);
    WordPage(lo, k);
    assert SameWords(s.mem.ram, s.mem.ram, a, a, (d, lo + k / 1024));
    var op := StoreAt(a, d, WordAddress(lo, k), v);
    StoreWords(s.mem.ram, a, d, lo, top, k, v);
    ForeignKeeps(s, a, d, lo, top, hi, op);
    StoreStep(s, op.f, op.i, op.v);
    ZoneTaken(s, a, d, lo, top, hi);
    ZoneTaken(Step(s, op), a, d, lo, top, hi);
    PagesOfOnly(s.mem, a);
    PagesOfOnly(Step(s, op).mem, a);
  }

  // ----- words and everybody else

  /** The operation stores nothing into a frame behind the zone. */
  ghost predicate Apart(a: Pages, d: nat, lo: nat, top: nat, op: Op) {
    op.Store? ==> forall q :: lo <= q < top && (d, q) in a ==> a[(d, q)] / 4096 != op.f
  }

  /** No operation but a store writes into a frame that clients hold. */
  lemma DataKept(s: Sys, op: Op, f: nat)
    requires SysInv(s) && Enabled(s, op) && f in Data(s.mem) && f < |s.mem.ram| && (op.Store? ==> op.f != f)
    ensures |Step(s, op).mem.ram| == |s.mem.ram| && Step(s, op).mem.ram[f] == s.mem.ram[f]
  {
    hide Inv, Mappable, Mapped, LowestFrame, Entry;
    RamSize(s, op);
    match op
    case NewSpace =>
      NewSpaceFits(s.mem);
    case Map(d, page, phys, flags) => WordsKept(s, d, page, phys, flags, f);
    case Unmap(d, page) => TableReached(s.mem, d, page);
    case _ =>
  }

  lemma ForeignWords(s: Sys, a: Pages, d: nat, lo: nat, top: nat, hi: nat, op: Op)
    requires Zone(s, a, d, lo, top, hi) && Enabled(s, op)
    requires Foreign(a, d, lo, top, hi, op) && Apart(a, d, lo, top, op)
    ensures Words(Step(s, op).mem.ram, AbsStep(a, op), d, lo, top) == Words(s.mem.ram, a, d, lo, top)
  {
    hide Zone, Words, Inv, Refines, Enabled, Step;
    ZoneShows(s, a, d, lo, top, hi);
    var s', a' := Step(s, op), AbsStep(a, op);
    forall q | lo <= q < top
      ensures SameWords(s.mem.ram, s'.mem.ram, a, a', (d, q))
    {
      assert SameWords(s.mem.ram, s.mem.ram, a, a, (d, q));
      DataKept(s, op, a[(d, q)] / 4096);
      ForeignMaps(s, a, d, lo, top, hi, op, q);
    }
    WordsSame(s.mem.ram, s'.mem.ram, a, a', d, lo, top);
  }

  lemma ForeignMaps(s: Sys, a: Pages, d: nat, lo: nat, top: nat, hi: nat, op: Op, q: nat)
    requires Zone(s, a, d, lo, top, hi) && Foreign(a, d, lo, top, hi, op) && lo <= q < top
    ensures (d, q) in a && (d, q) in AbsStep(a, op) && AbsStep(a, op)[(d, q)] == a[(d, q)]
  {
    hide SysInv, Refines, Data, Spaces, LeafFor;
  }

  // ----- lowering

  /** Lowering the break keeps the words below. */
  lemma {:induction false} ShrunkWords(s: Sys, a: Pages, d: nat, lo: nat, top: nat, hi: nat, n: nat)
    requires Zone(s, a, d, lo, top, hi) && n <= top - lo
    ensures var (s', a') := Shrunk(s, a, d, lo, top, hi, n);
            && |Words(s.mem.ram, a, d, lo, top)| == 1024 * (top - lo)
            && Words(s'.mem.ram, a', d, lo, top - n) == Words(s.mem.ram, a, d, lo, top)[..1024 * (top - lo - n)]
    decreases n
  {
    hide Zone, Words, SysInv, StepDown;
    ZoneShows(s, a, d, lo, top, hi);
    WordsSame(s.mem.ram, s.mem.ram, a, a, d, lo, top);
    if n == 0 {
    } else {
      var s1, a1 := StepDown(s, a, d, lo, top, hi), a - {(d, top - 1)};
      DownWords(s, a, d, lo, top, hi);
      ShrunkWords(s1, a1, d, lo, top - 1, hi, n - 1);
    }
  }

  lemma DownWords(s: Sys, a: Pages, d: nat, lo: nat, top: nat, hi: nat)
    requires Zone(s, a, d, lo, top, hi) && lo < top
    ensures |Words(s.mem.ram, a, d, lo, top)| == 1024 * (top - lo)
    ensures Words(StepDown(s, a, d, lo, top, hi).mem.ram, a - {(d, top - 1)}, d, lo, top - 1)
            == Words(s.mem.ram, a, d, lo, top)[..1024 * (top - 1 - lo)]
  {
    hide Zone, Words, Inv, Refines, Enabled, Step, Data;
    ZoneShows(s, a, d, lo, top, hi);
    var s', a' := StepDown(s, a, d, lo, top, hi), a - {(d, top - 1)};
    forall q | lo <= q < top - 1
      ensures SameWords(s.mem.ram, s'.mem.ram, a, a', (d, q))
    {
      assert SameWords(s.mem.ram, s.mem.ram, a, a, (d, q));
      DownKept(s, a, d, lo, top, hi, a[(d, q)] / 4096);
    }
    WordsSame(s.mem.ram, s'.mem.ram, a, a', d, lo, top - 1);
    WordsSame(s.mem.ram, s.mem.ram, a, a, d, lo, top);
    WordsPrefix(s.mem.ram, a, d, lo, top - 1, 1);
  }

  lemma DownKept(s: Sys, a: Pages, d: nat, lo: nat, top: nat, hi: nat, f: nat)
    requires Zone(s, a, d, lo, top, hi) && lo < top && f in Data(s.mem) && f < |s.mem.ram|
    ensures var s' := StepDown(s, a, d, lo, top, hi);
            |s'.mem.ram| == |s.mem.ram| && s'.mem.ram[f] == s.mem.ram[f]
  {
    hide Zone, Inv, Refines, Data, Enabled;
    ZoneFacts(s, a, d, lo, top, hi);
    StepDownZone(s, a, d, lo, top, hi);
    var page := top - 1;
    var s1 := Step(s, GetMapped(d, page));
    var s2 := Step(s1, Unmap(d, page));
    DataKept(s1, Unmap(d, page), f);
  }

  // ----- runs

  /** A raise by so many pages (refused when they do not fit), a lowering (stopped at the start of
    the zone), a store to one of its words, or an operation of somebody else. */
  datatype Move = Raise(n: nat) | Lower(n: nat) | Poke(k: nat, v: nat) | Other(op: Op)

  datatype Break = Break(sys: Sys, pages: Pages, top: nat)

  ghost predicate InZone(b: Break, d: nat, lo: nat, hi: nat) {
    Zone(b.sys, b.pages, d, lo, b.top, hi)
  }

  /** The words of the zone up to the break. */
  ghost function Shown(b: Break, d: nat, lo: nat): seq<nat> {
    Words(b.sys.mem.ram, b.pages, d, lo, b.top)
  }

  ghost predicate Moved(b: Break, d: nat, lo: nat, hi: nat, flags: nat, mv: Move, b': Break)
    requires InZone(b, d, lo, hi) && flags < 4096
  {
    match mv
    case Raise(n) =>
      if b.top + n > hi then b' == b
      else
        && CanGrow(b.sys, b.pages, d, lo, b.top, hi, flags, n)
        && var (s, a) := Grown(b.sys, b.pages, d, lo, b.top, hi, flags, n);
           b' == Break(s, a, b.top + n)
    case Lower(n) =>
      var k := if n <= b.top - lo then n else b.top - lo;
      var (s, a) := Shrunk(b.sys, b.pages, d, lo, b.top, hi, k);
      b' == Break(s, a, b.top - k)
    case Poke(k, v) =>
      && k < 1024 * (b.top - lo) && (d, WordAddress(lo, k) / 4096) in b.pages
      && Enabled(b.sys, StoreAt(b.pages, d, WordAddress(lo, k), v))
      && b' == Break(Step(b.sys, StoreAt(b.pages, d, WordAddress(lo, k), v)), b.pages, b.top)
    case Other(op) =>
      && Enabled(b.sys, op) && Foreign(b.pages, d, lo, b.top, hi, op)
      && b' == Break(Step(b.sys, op), AbsStep(b.pages, op), b.top)
  }

  /** What a move does to the words `w` of the zone. */
  ghost predicate WordsMoved(b: Break, d: nat, lo: nat, hi: nat, mv: Move, w: seq<nat>, w': seq<nat>) {
    match mv
    case Raise(n) => if b.top + n > hi then w' == w else w <= w' && |w'| == |w| + 1024 * n
    case Lower(n) => if 1024 * n <= |w| then w' == w[..|w| - 1024 * n] else w' == []
    case Poke(k, v) => k < |w| && w' == w[k := v]
    case Other(op) => Apart(b.pages, d, lo, b.top, op) ==> w' == w
  }

  lemma MoveKeeps(b: Break, d: nat, lo: nat, hi: nat, flags: nat, mv: Move, b': Break)
    requires InZone(b, d, lo, hi) && flags < 4096 && Moved(b, d, lo, hi, flags, mv, b')
    ensures InZone(b', d, lo, hi)
    ensures WordsMoved(b, d, lo, hi, mv, Shown(b, d, lo), Shown(b', d, lo))
  {
    hide Zone, Step, Enabled, Foreign, Apart, CanGrow, Grown, Shrunk, Words, WordAddress;
    match mv
    case Raise(n) =>
      if b.top + n <= hi {
        GrownZone(b.sys, b.pages, d, lo, b.top, hi, flags, n);
        GrownKeepsWords(b.sys, b.pages, d, lo, b.top, hi, flags, n);
      }
    case Lower(n) =>
      LowerMoves(b, d, lo, hi, n);
    case Poke(k, v) =>
      StoreLands(b.sys, b.pages, d, lo, b.top, hi, k, v);
    case Other(op) =>
      ForeignKeeps(b.sys, b.pages, d, lo, b.top, hi, op);
      if Apart(b.pages, d, lo, b.top, op) {
        ForeignWords(b.sys, b.pages, d, lo, b.top, hi, op);
      }
  }

  lemma LowerMoves(b: Break, d: nat, lo: nat, hi: nat, n: nat)
    requires InZone(b, d, lo, hi)
    ensures lo <= b.top
    ensures var k := if n <= b.top - lo then n else b.top - lo;
            var (s, a) := Shrunk(b.sys, b.pages, d, lo, b.top, hi, k);
            WordsMoved(b, d, lo, hi, Lower(n), Shown(b, d, lo), Words(s.mem.ram, a, d, lo, b.top - k))
  {
    hide Zone, Shrunk, Words;
    ZoneShows(b.sys, b.pages, d, lo, b.top, hi);
    var k := if n <= b.top - lo then n else b.top - lo;
    ShrunkWords(b.sys, b.pages, d, lo, b.top, hi, k);
  }

  /** A run: break `bs[j]` becomes `bs[j + 1]` by move `mvs[j]`. */
  ghost predicate Moves(bs: seq<Break>, mvs: seq<Move>, d: nat, lo: nat, hi: nat, flags: nat) {
    && |bs| == |mvs| + 1 && flags < 4096
    && InZone(bs[0], d, lo, hi)
    && forall j :: 0 <= j < |mvs| ==> InZone(bs[j], d, lo, hi) ==> Moved(bs[j], d, lo, hi, flags, mvs[j], bs[j + 1])
  }

  /** The break invariant over any run of raises, lowerings and stores, interleaved in any way with
    what others do: always exactly the pages of the zone below the break are mapped, each to a
    taken frame of its own that is no page table.  Its words are an array that raises lengthen,
    lowerings shorten, stores change at one index, and others leave alone who keep to their own
    frames. */
  lemma {:induction false} BreakRun(bs: seq<Break>, mvs: seq<Move>, d: nat, lo: nat, hi: nat, flags: nat, k: nat)
    requires Moves(bs, mvs, d, lo, hi, flags) && k < |bs|
    ensures InZone(bs[k], d, lo, hi)
    ensures k < |mvs| ==> WordsMoved(bs[k], d, lo, hi, mvs[k], Shown(bs[k], d, lo), Shown(bs[k + 1], d, lo))
  {
    hide InZone, Moved, Shown, WordsMoved;
    if k == 0 {
    } else {
      BreakRun(bs, mvs, d, lo, hi, flags, k - 1);
      MoveKeeps(bs[k - 1], d, lo, hi, flags, mvs[k - 1], bs[k]);
    }
    if k < |mvs| {
      MoveKeeps(bs[k], d, lo, hi, flags, mvs[k], bs[k + 1]);
    }
  }
}
