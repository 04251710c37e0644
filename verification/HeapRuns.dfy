/** Whole runs of the kernel heap on a page-backed zone that others share the machine with. */
module HeapRuns {
  import H = HeapBlocks
  import HS = HeapStores
  import HT = HeapTags
  import opened FrameMap
  import opened PageTree
  import opened AddressSpaces
  import opened BreakZone
  import opened ZoneWords
  import opened HeapOnZone

  // ----- every run

  lemma MovesFrom(bs: seq<Break>, mvs: seq<Move>, d: nat, lo: nat, hi: nat, flags: nat, a: nat, b: nat)
    requires Moves(bs, mvs, d, lo, hi, flags) && a <= b <= |mvs|
    ensures Moves(bs[a..b + 1], mvs[a..b], d, lo, hi, flags)
  {
    hide InZone, Moved;
    BreakRun(bs, mvs, d, lo, hi, flags, a);
  }

  /** No store of the operation falls into a payload that lives through it, but for the client's
    own write. */
  ghost predicate SparesOthers(h: H.Heap, op: H.Op)
    requires H.Good(h) && HS.CanUse(h.blocks, op)
  {
    forall p :: p in H.Contents(h) && !H.Touches(op, p) ==>
      HS.Misses(HS.UseMoves(h.blocks, op, 1024), p, |H.Contents(h)[p]|)
  }

  /** From `a` to `b` the run carries out event `e`, and the zone shows heap `h` before and `h'` after. */
  ghost predicate Stage(
      bs: seq<Break>, mvs: seq<Move>, a: nat, b: nat, d: nat, lo: nat, hi: nat, h: H.Heap, e: Event, h': H.Heap) {
    && lo <= hi && a <= b < |bs| && b <= |mvs|
    && Backed(bs[a], d, lo, hi, h) && Backed(bs[b], d, lo, hi, h')
    && Legal(h.blocks, e, 1024 * (hi - lo)) && mvs[a..b] == EventMoves(h.blocks, e, 1024 * (hi - lo))
    && Happens(h, e, h')
    && (e.Use? ==> Kept(bs[a], bs[b]) && SparesOthers(h, e.use))
  }

  ghost predicate Staged(
      bs: seq<Break>, mvs: seq<Move>, d: nat, lo: nat, hi: nat, es: seq<Event>, hs: seq<H.Heap>, at: seq<nat>) {
    && |hs| == |at| == |es| + 1
    && forall j :: 0 <= j < |es| ==> Stage(bs, mvs, at[j], at[j + 1], d, lo, hi, hs[j], es[j], hs[j + 1])
  }

  lemma StageOfUse(
      bs: seq<Break>, mvs: seq<Move>, k: nat, d: nat, lo: nat, hi: nat, flags: nat, h: H.Heap, op: H.Op)
    returns (h': H.Heap)
    requires Moves(bs, mvs, d, lo, hi, flags) && lo <= hi && Backed(bs[0], d, lo, hi, h) && k <= |mvs|
    requires Legal(h.blocks, Use(op), 1024 * (hi - lo)) && mvs[..k] == EventMoves(h.blocks, Use(op), 1024 * (hi - lo))
    ensures Stage(bs, mvs, 0, k, d, lo, hi, h, Use(op), h')
    ensures h'.blocks == BlocksThen(h.blocks, Use(op), 1024 * (hi - lo))
  {
    hide InZone, Moved, Shown, H.Good, Legal, EventMoves, BlocksThen, Happens, Kept, HS.Misses, HS.UseMoves;
    MovesFrom(bs, mvs, d, lo, hi, flags, 0, k);
    assert mvs[0..k] == mvs[..k];
    h' := UseOnZone(bs[0..k + 1], mvs[0..k], d, lo, hi, flags, h, op);
  }

  lemma StageOfForeign(
      bs: seq<Break>, mvs: seq<Move>, d: nat, lo: nat, hi: nat, flags: nat, h: H.Heap, op: Op)
    requires Moves(bs, mvs, d, lo, hi, flags) && lo <= hi && Backed(bs[0], d, lo, hi, h) && AllApart(bs, mvs, d, lo)
    requires mvs != [] && mvs[0] == Other(op)
    ensures Stage(bs, mvs, 0, 1, d, lo, hi, h, Foreign(op), h)
  {
    hide InZone, Moved, Shown, H.Good, Apart;
    assert mvs[0..1] == [Other(op)];
    MoveKeeps(bs[0], d, lo, hi, flags, mvs[0], bs[1]);
  }

  lemma StageLater(
      bs: seq<Break>, mvs: seq<Move>, k: nat, a: nat, b: nat, d: nat, lo: nat, hi: nat,
      h: H.Heap, e: Event, h': H.Heap)
    requires k <= |mvs| && |bs| == |mvs| + 1 && Stage(bs[k..], mvs[k..], a, b, d, lo, hi, h, e, h')
    ensures Stage(bs, mvs, k + a, k + b, d, lo, hi, h, e, h')
  {
    hide Backed, Legal, EventMoves, Happens, Kept, SparesOthers, H.Good;
    assert mvs[k..][a..b] == mvs[k + a..k + b];
  }

  lemma StagesLater(
      bs: seq<Break>, mvs: seq<Move>, k: nat, d: nat, lo: nat, hi: nat,
      es: seq<Event>, hs: seq<H.Heap>, at: seq<nat>, h: H.Heap)
    returns (at': seq<nat>)
    requires k <= |mvs| && |bs| == |mvs| + 1 && es != [] && |hs| > 0
    requires Stage(bs, mvs, 0, k, d, lo, hi, h, es[0], hs[0])
    requires Staged(bs[k..], mvs[k..], d, lo, hi, es[1..], hs, at) && at[0] == 0
    ensures Staged(bs, mvs, d, lo, hi, es, [h] + hs, at') && at'[0] == 0 && at'[|es|] == k + at[|es| - 1]
  {
    hide Stage;
    at' := [0] + seq(|at|, j requires 0 <= j < |at| => k + at[j]);
    var hs' := [h] + hs;
    forall j | 0 <= j < |es|
      ensures Stage(bs, mvs, at'[j], at'[j + 1], d, lo, hi, hs'[j], es[j], hs'[j + 1])
    {
      if j > 0 {
        StageLater(bs, mvs, k, at[j - 1], at[j], d, lo, hi, hs[j - 1], es[1..][j - 1], hs[j]);
      }
    }
  }

  /** The heap among others, over every run.  The machine carries out the pages and stores of any
    allocations, releases and client writes, with operations of anybody else in between who keep to
    their own frames.  Then all along the zone shows the words of a well-formed heap, every event
    changes the clients' buffers as it should, and no store of the heap itself falls into a payload
    that stays. */
  lemma {:induction false} HeapRunOnZone(
      bs: seq<Break>, mvs: seq<Move>, d: nat, lo: nat, hi: nat, flags: nat, h: H.Heap, es: seq<Event>)
    returns (hs: seq<H.Heap>, at: seq<nat>)
    requires Moves(bs, mvs, d, lo, hi, flags) && lo <= hi && Backed(bs[0], d, lo, hi, h)
    requires AllLegal(h.blocks, es, 1024 * (hi - lo)) && mvs == HeapMoves(h.blocks, es, 1024 * (hi - lo))
    requires AllApart(bs, mvs, d, lo)
    ensures Staged(bs, mvs, d, lo, hi, es, hs, at) && hs[0] == h && at[0] == 0 && at[|es|] == |mvs|
    decreases |es|
  {
    hide InZone, Moved, Backed, Legal, EventMoves, BlocksThen, Happens, Kept, SparesOthers;
    if es == [] {
      hs, at := [h], [0];
    } else {
      var words := 1024 * (hi - lo);
      var first := EventMoves(h.blocks, es[0], words);
      var k := |first|;
      assert mvs[..k] == first && mvs[k..] == HeapMoves(BlocksThen(h.blocks, es[0], words), es[1..], words);
      var h' := FirstStage(bs, mvs, k, d, lo, hi, flags, h, es[0]);
      MovesFrom(bs, mvs, d, lo, hi, flags, k, |mvs|);
      assert bs[k..|mvs| + 1] == bs[k..] && mvs[k..|mvs|] == mvs[k..];
      ApartFrom(bs, mvs, d, lo, k);
      var hs2, at2 := HeapRunOnZone(bs[k..], mvs[k..], d, lo, hi, flags, h', es[1..]);
      at := StagesLater(bs, mvs, k, d, lo, hi, es, hs2, at2, h);
      hs := [h] + hs2;
    }
  }

  lemma ApartFrom(bs: seq<Break>, mvs: seq<Move>, d: nat, lo: nat, k: nat)
    requires AllApart(bs, mvs, d, lo) && k <= |mvs| < |bs|
    ensures AllApart(bs[k..], mvs[k..], d, lo)
  {
    hide Apart;
  }

  lemma FirstStage(
      bs: seq<Break>, mvs: seq<Move>, k: nat, d: nat, lo: nat, hi: nat, flags: nat, h: H.Heap, e: Event)
    returns (h': H.Heap)
    requires Moves(bs, mvs, d, lo, hi, flags) && lo <= hi && Backed(bs[0], d, lo, hi, h) && k <= |mvs|
    requires Legal(h.blocks, e, 1024 * (hi - lo)) && mvs[..k] == EventMoves(h.blocks, e, 1024 * (hi - lo))
    requires AllApart(bs, mvs, d, lo)
    ensures Stage(bs, mvs, 0, k, d, lo, hi, h, e, h') && h'.blocks == BlocksThen(h.blocks, e, 1024 * (hi - lo))
    ensures Backed(bs[k], d, lo, hi, h')
  {
    hide InZone, Moved, Backed, Legal, AllApart, Happens, Kept, SparesOthers;
    match e
    case Use(op) =>
      h' := StageOfUse(bs, mvs, k, d, lo, hi, flags, h, op);
    case Foreign(op) =>
      h' := h;
      assert mvs[0] == mvs[..k][0];
      StageOfForeign(bs, mvs, d, lo, hi, flags, h, op);
  }

  // ----- payloads in memory

  /** A load from an address of space `d` finds `v`. */
  ghost predicate Loads(b: Break, d: nat, address: nat, v: nat) {
    && (d, address / 4096) in b.pages
    && var f := b.pages[(d, address / 4096)] / 4096;
       f < |b.sys.mem.ram| && address % 4096 / 4 < |b.sys.mem.ram[f]| && b.sys.mem.ram[f][address % 4096 / 4] == v
  }

  lemma {:induction false} BufferWords(bs: seq<H.Block>, o: nat, w: seq<nat>, p: nat)
    requires |w| == H.Span(bs) && p in H.Buffers(bs, o, w)
    ensures o < p && p + |H.Buffers(bs, o, w)[p]| < o + |w|
    ensures H.Buffers(bs, o, w)[p] == w[p - o..p - o + |H.Buffers(bs, o, w)[p]|]
    decreases bs
  {
    hide H.Span, H.Buffers, H.Tiles;
    H.BufferUnfold(bs, o, w);
    H.BufferBounds(bs, o, w);
    var d := bs[0].words + 2;
    if bs[0].live && p == o + 1 {
      assert H.Buffers(bs, o, w)[p] == w[1..d - 1];
    } else {
      BufferWords(bs[1..], o + d, w[d..], p);
    }
  }

  /** Word `k` of payload `p` is what a load from its address finds. */
  lemma PayloadLoads(b: Break, d: nat, lo: nat, hi: nat, h: H.Heap, p: nat, k: nat)
    requires Backed(b, d, lo, hi, h) && p in H.Contents(h) && k < |H.Contents(h)[p]|
    ensures Loads(b, d, WordAddress(lo, p + k), H.Contents(h)[p][k])
  {
    hide Zone, Words, H.Tiles, H.Shape, H.Buffers, H.Span, WordAddress;
    BackedTop(b, d, lo, hi, h);
    ZoneShows(b.sys, b.pages, d, lo, b.top, hi);
    BufferWords(h.blocks, 0, h.words, p);
    WordsAt(b.sys.mem.ram, b.pages, d, lo, b.top, p + k);
    WordPage(lo, p + k);
  }

  ghost predicate Hits(e: Event, p: nat) {
    e.Use? && H.Touches(e.use, p)
  }

  lemma StageKeeps(
      bs: seq<Break>, mvs: seq<Move>, a: nat, b: nat, d: nat, lo: nat, hi: nat,
      h: H.Heap, e: Event, h': H.Heap, p: nat)
    requires Stage(bs, mvs, a, b, d, lo, hi, h, e, h') && p in H.Contents(h) && !Hits(e, p)
    ensures H.Good(h') && p in H.Contents(h') && H.Contents(h')[p] == H.Contents(h)[p]
  {
    hide InZone, Shown, H.Good, Legal, EventMoves, Kept, SparesOthers, H.Contents, H.Step, H.PayloadOffset;
  }

  lemma {:induction false} BufferKept(
      bs: seq<Break>, mvs: seq<Move>, d: nat, lo: nat, hi: nat, es: seq<Event>, hs: seq<H.Heap>, at: seq<nat>,
      i: nat, j: nat, p: nat)
    requires Staged(bs, mvs, d, lo, hi, es, hs, at) && i <= j <= |es|
    requires at[i] < |bs| && Backed(bs[at[i]], d, lo, hi, hs[i]) && p in H.Contents(hs[i])
    requires forall k :: i <= k < j ==> !Hits(es[k], p)
    ensures at[j] < |bs| && Backed(bs[at[j]], d, lo, hi, hs[j])
    ensures p in H.Contents(hs[j]) && H.Contents(hs[j])[p] == H.Contents(hs[i])[p]
    decreases j - i
  {
    hide InZone, Shown, H.Good, Legal, EventMoves, Kept, SparesOthers, H.Contents, Happens, Hits;
    if i == j {
    } else {
      assert Stage(bs, mvs, at[i], at[i + 1], d, lo, hi, hs[i], es[i], hs[i + 1]);
      StageKeeps(bs, mvs, at[i], at[i + 1], d, lo, hi, hs[i], es[i], hs[i + 1], p);
      BufferKept(bs, mvs, d, lo, hi, es, hs, at, i + 1, j, p);
    }
  }

  /** A client's buffer stays in memory for as long as the client neither writes nor releases it,
    whatever the heap serves meanwhile and whatever others do to the machine: a load from any of its
    words finds the same value before and after. */
  lemma PayloadStable(
      bs: seq<Break>, mvs: seq<Move>, d: nat, lo: nat, hi: nat, es: seq<Event>, hs: seq<H.Heap>, at: seq<nat>,
      i: nat, j: nat, p: nat, k: nat)
    requires Staged(bs, mvs, d, lo, hi, es, hs, at) && i <= j <= |es|
    requires at[i] < |bs| && Backed(bs[at[i]], d, lo, hi, hs[i])
    requires p in H.Contents(hs[i]) && k < |H.Contents(hs[i])[p]|
    requires forall e :: i <= e < j ==> !Hits(es[e], p)
    ensures at[j] < |bs| && Backed(bs[at[j]], d, lo, hi, hs[j])
    ensures var v := H.Contents(hs[i])[p][k];
            Loads(bs[at[i]], d, WordAddress(lo, p + k), v) && Loads(bs[at[j]], d, WordAddress(lo, p + k), v)
  {
    hide Stage, Backed, H.Good, H.Contents, Loads, WordAddress, Hits;
    BackedGood(bs[at[i]], d, lo, hi, hs[i]);
    BufferKept(bs, mvs, d, lo, hi, es, hs, at, i, j, p);
    PayloadLoads(bs[at[i]], d, lo, hi, hs[i], p, k);
    PayloadLoads(bs[at[j]], d, lo, hi, hs[j], p, k);
  }

  lemma BackedGood(b: Break, d: nat, lo: nat, hi: nat, h: H.Heap)
    requires Backed(b, d, lo, hi, h)
    ensures H.Good(h)
  {
  }

  // ----- such runs exist

  /** Every store of `xs` falls among the words there are by then, `len` to begin with. */
  predicate Fits(len: nat, xs: seq<HS.Access>)
    decreases xs
  {
    xs == [] ||
    match xs[0]
    case Page => Fits(len + 1024, xs[1..])
    case Poke(k, _) => k < len && Fits(len, xs[1..])
  }

  lemma {:induction false} FitsConcat(len: nat, xs: seq<HS.Access>, ys: seq<HS.Access>)
    ensures Fits(len, xs + ys) <==> Fits(len, xs) && Fits(len + 1024 * NewPages(xs), ys)
    decreases xs
  {
    if xs == [] {
      assert xs + ys == ys;
    } else {
      assert (xs + ys)[0] == xs[0] && (xs + ys)[1..] == xs[1..] + ys;
      FitsConcat(if xs[0].Page? then len + 1024 else len, xs[1..], ys);
    }
  }

  lemma TagsFit(len: nat, o: nat, b: H.Block, rest: seq<HS.Access>)
    requires o + b.words + 2 <= len && Fits(len, rest)
    ensures Fits(len, HS.TagMoves(o, b) + rest)
  {
    hide H.Header, H.Footer;
    var xs := HS.TagMoves(o, b) + rest;
    assert xs[1..][1..] == rest;
  }

  lemma {:induction false} ServeFits(len: nat, o: nat, have: nat, n: nat)
    requires o + have + 2 <= len && (have < n + 2 ==> o + have + 2 == len)
    ensures Fits(len, HS.ServeMoves(o, have, n, 1024))
    decreases if have < n + 2 then n + 2 - have else 0
  {
    hide H.Header, H.Footer, HS.TagMoves;
    if have >= n + 2 {
      var low := HS.TagMoves(o, H.Block(n, true));
      TagsFit(len, o, H.Block(n, true), []);
      assert low + [] == low;
      TagsFit(len, o + n + 2, H.Block(have - n - 2, false), low);
    } else {
      var b, rest := H.Block(have + 1024, false), HS.ServeMoves(o, have + 1024, n, 1024);
      ServeFits(len + 1024, o, have + 1024, n);
      TagsFit(len + 1024, o, b, rest);
      assert HS.ServeMoves(o, have, n, 1024)[1..] == HS.TagMoves(o, b) + rest;
    }
  }

  lemma ReleaseFits(bs: seq<H.Block>, i: nat)
    requires i < |bs|
    ensures Fits(H.Span(bs), HS.ReleaseMoves(bs, i))
  {
    hide H.Span, HS.TagMoves, HT.MergedLeft, H.Merged, H.MergeLo, H.MergeHi, H.NextFree;
    var lo := H.Span(bs[..H.MergeLo(bs, i)]);
    HT.MergeSpans(bs, i);
    HS.MergeGrows(bs, i);
    var whole := HS.TagMoves(lo, H.Merged(bs, i));
    TagsFit(H.Span(bs), lo, H.Merged(bs, i), []);
    assert whole + [] == whole;
    TagsFit(H.Span(bs), lo, HT.MergedLeft(bs, i), if H.NextFree(bs, i) then whole else []);
  }

  lemma UseFits(bs: seq<H.Block>, op: H.Op)
    requires H.Shape(bs) && HS.CanUse(bs, op)
    ensures Fits(H.Span(bs), HS.UseMoves(bs, op, 1024))
  {
    hide H.Span, HS.ServeMoves, HS.ReleaseMoves, H.Released;
    match op
    case Allocate(n) =>
      var i := H.Chosen(bs, n);
      H.SpanAround(bs, i);
      H.ChosenBlock(bs, n, 1024);
      HT.SpanNone(bs);
      assert i == |bs| - 1 ==> bs[i + 1..] == bs[..0];
      ServeFits(H.Span(bs), H.Span(bs[..i]), bs[i].words, n);
    case Release(p) =>
      var i := HS.ReleasedBlock(bs, p, 1024);
      ReleaseFits(bs, i);
    case Write(p, k, v) =>
      var i: nat :| H.LiveAt(bs, i, p) && k < bs[i].words;
      H.SpanAround(bs, i);
      assert [HS.Access.Poke(p + k, v)][1..] == [];
  }

  lemma ShapeAfter(bs: seq<H.Block>, op: H.Op)
    requires H.Shape(bs) && HS.CanUse(bs, op)
    ensures H.Shape(HS.BlocksAfter(bs, op, 1024))
  {
    hide H.Shape, H.Allocated, H.Released;
    match op
    case Allocate(n) => H.AllocatedShape(bs, n, 1024);
    case Release(p) =>
      var i := HS.ReleasedBlock(bs, p, 1024);
      H.ReleasedShape(bs, i);
    case Write(_, _, _) =>
  }

  /** The accesses of all uses, one after the other. */
  ghost function Accesses(blocks: seq<H.Block>, ops: seq<H.Op>, words: nat): seq<HS.Access>
    requires AllLegal(blocks, Uses(ops), words)
    decreases ops
  {
    if ops == [] then []
    else
      assert Uses(ops)[1..] == Uses(ops[1..]);
      HS.UseMoves(blocks, ops[0], 1024) + Accesses(HS.BlocksAfter(blocks, ops[0], 1024), ops[1..], words)
  }

  function Uses(ops: seq<H.Op>): seq<Event> {
    seq(|ops|, j requires 0 <= j < |ops| => Use(ops[j]))
  }

  lemma ToMovesConcat(xs: seq<HS.Access>, ys: seq<HS.Access>)
    ensures ToMoves(xs + ys) == ToMoves(xs) + ToMoves(ys)
  {
  }

  lemma {:induction false} AccessesFit(blocks: seq<H.Block>, ops: seq<H.Op>, words: nat)
    requires H.Shape(blocks) && H.Span(blocks) <= words && AllLegal(blocks, Uses(ops), words)
    ensures var xs := Accesses(blocks, ops, words);
            && Fits(H.Span(blocks), xs) && H.Span(blocks) + 1024 * NewPages(xs) <= words
            && HeapMoves(blocks, Uses(ops), words) == ToMoves(xs)
    decreases ops
  {
    hide H.Shape, H.Span, HS.UseMoves, HS.BlocksAfter, HS.CanUse;
    if ops == [] {
    } else {
      var xs, blocks' := HS.UseMoves(blocks, ops[0], 1024), HS.BlocksAfter(blocks, ops[0], 1024);
      assert Uses(ops)[1..] == Uses(ops[1..]);
      var ys := Accesses(blocks', ops[1..], words);
      UseFits(blocks, ops[0]);
      UsePages(blocks, ops[0]);
      ShapeAfter(blocks, ops[0]);
      AccessesFit(blocks', ops[1..], words);
      FitsConcat(H.Span(blocks), xs, ys);
      NewPagesConcat(xs, ys);
      ToMovesConcat(xs, ys);
    }
  }

  /** With two claimable frames for a page, the machine can carry out one access. */
  lemma OneAccess(b: Break, d: nat, lo: nat, hi: nat, flags: nat, x: HS.Access, spare: nat) returns (b': Break)
    requires InZone(b, d, lo, hi) && flags < 4096
    requires x.Page? ==> b.top < hi && CanTake(b.sys.mem.taken, spare + 2)
    requires x.Poke? ==> x.k < 1024 * (b.top - lo) && CanTake(b.sys.mem.taken, spare)
    ensures Moved(b, d, lo, hi, flags, ToMove(x), b') && InZone(b', d, lo, hi)
    ensures b'.top == (if x.Page? then b.top + 1 else b.top) && CanTake(b'.sys.mem.taken, spare)
  {
    hide Zone, Words, Step, Enabled, PagesOf, WordAddress, LowestFrame, HasFrame, CanTake, CanStep, StepUp;
    match x {
    case Page =>
      CanTakeFewer(b.sys.mem.taken, spare + 2, 2);
      TwoFramesPerPage(b.sys, b.pages, d, lo, b.top, hi, flags, 1);
      StepUpTakes(b.sys, b.pages, d, lo, b.top, hi, flags, spare + 2);
      var (s, a) := Grown(b.sys, b.pages, d, lo, b.top, hi, flags, 1);
      b' := Break(s, a, b.top + 1);
    case Poke(k, v) =>
      ZoneFacts(b.sys, b.pages, d, lo, b.top, hi);
      StoreLands(b.sys, b.pages, d, lo, b.top, hi, k, v);
      b' := Break(Step(b.sys, StoreAt(b.pages, d, WordAddress(lo, k), v)), b.pages, b.top);
    }
    MoveKeeps(b, d, lo, hi, flags, ToMove(x), b');
  }

  lemma {:induction false} AccessesRun(
      b: Break, d: nat, lo: nat, hi: nat, flags: nat, xs: seq<HS.Access>, spare: nat)
    returns (bs: seq<Break>)
    requires InZone(b, d, lo, hi) && flags < 4096 && lo <= b.top
    requires Fits(1024 * (b.top - lo), xs) && b.top + NewPages(xs) <= hi
    requires CanTake(b.sys.mem.taken, spare + 2 * NewPages(xs))
    ensures Moves(bs, ToMoves(xs), d, lo, hi, flags) && bs[0] == b && CanTake(bs[|xs|].sys.mem.taken, spare)
    decreases xs
  {
    hide InZone, Moved, CanTake;
    if xs == [] {
      bs := [b];
    } else {
      var b1 := OneAccess(b, d, lo, hi, flags, xs[0], spare + 2 * NewPages(xs[1..]));
      var rest := AccessesRun(b1, d, lo, hi, flags, xs[1..], spare);
      assert ToMoves(xs) == [ToMove(xs[0])] + ToMoves(xs[1..]);
      MovesAfter(b, ToMove(xs[0]), rest, ToMoves(xs[1..]), d, lo, hi, flags);
      bs := [b] + rest;
    }
  }

  lemma MovesAfter(
      b: Break, mv: Move, bs: seq<Break>, mvs: seq<Move>, d: nat, lo: nat, hi: nat, flags: nat)
    requires Moves(bs, mvs, d, lo, hi, flags) && InZone(b, d, lo, hi) && Moved(b, d, lo, hi, flags, mv, bs[0])
    ensures Moves([b] + bs, [mv] + mvs, d, lo, hi, flags)
  {
    hide InZone, Moved;
  }

  /** From any zone that shows a heap, any allocations, releases and client writes that fit the zone
    can be carried out: two claimable frames for each new page are enough. */
  lemma UsesRun(b: Break, d: nat, lo: nat, hi: nat, flags: nat, h: H.Heap, ops: seq<H.Op>)
    returns (bs: seq<Break>)
    requires Backed(b, d, lo, hi, h) && flags < 4096 && lo <= hi && AllLegal(h.blocks, Uses(ops), 1024 * (hi - lo))
    requires CanTake(b.sys.mem.taken, 2 * NewPages(Accesses(h.blocks, ops, 1024 * (hi - lo))))
    ensures Moves(bs, HeapMoves(h.blocks, Uses(ops), 1024 * (hi - lo)), d, lo, hi, flags) && bs[0] == b
    ensures AllApart(bs, HeapMoves(h.blocks, Uses(ops), 1024 * (hi - lo)), d, lo)
  {
    hide Zone, Shown, Moved, Apart, CanTake, H.Good, H.Shape, H.Span, AllLegal, Accesses, Fits, HeapMoves;
    BackedTop(b, d, lo, hi, h);
    AccessesFit(h.blocks, ops, 1024 * (hi - lo));
    bs := AccessesRun(b, d, lo, hi, flags, Accesses(h.blocks, ops, 1024 * (hi - lo)), 0);
  }

  // ----- the first request

  lemma FirstPages(n: nat)
    ensures Fits(0, HS.FirstMoves(n, 1024))
    ensures 1024 * NewPages(HS.FirstMoves(n, 1024)) == H.Span(H.Allocated(HT.FirstBlocks(1024), n, 1024))
  {
    hide HS.AllocateMoves, H.Allocated, H.Header;
    var first, rest := HT.FirstBlocks(1024), HS.AllocateMoves(HT.FirstBlocks(1024), n, 1024);
    var xs := HS.FirstMoves(n, 1024);
    H.SpanOne(first[0]);
    UseFits(first, H.Allocate(n));
    UsePages(first, H.Allocate(n));
    assert xs[1..][1..] == rest;
  }

  /** In a zone that has no page yet, a request that fits the zone can be carried out, with two
    claimable frames for each of its pages. */
  lemma FirstRuns(b: Break, d: nat, lo: nat, hi: nat, flags: nat, n: nat) returns (bs: seq<Break>)
    requires InZone(b, d, lo, hi) && b.top == lo <= hi && flags < 4096
    requires H.Span(H.Allocated(HT.FirstBlocks(1024), n, 1024)) <= 1024 * (hi - lo)
    requires CanTake(b.sys.mem.taken, 2 * NewPages(HS.FirstMoves(n, 1024)))
    ensures Moves(bs, ToMoves(HS.FirstMoves(n, 1024)), d, lo, hi, flags) && bs[0] == b
  {
    hide InZone, Moved, CanTake, HS.FirstMoves, H.Allocated, Fits;
    FirstPages(n);
    bs := AccessesRun(b, d, lo, hi, flags, HS.FirstMoves(n, 1024), 0);
  }

  /** Whenever the first request is carried out, the zone shows a heap that holds its payload. */
  lemma FirstOnZone(bs: seq<Break>, mvs: seq<Move>, d: nat, lo: nat, hi: nat, flags: nat, n: nat)
    returns (h: H.Heap)
    requires Moves(bs, mvs, d, lo, hi, flags) && mvs == ToMoves(HS.FirstMoves(n, 1024)) && bs[0].top == lo <= hi
    requires H.Span(H.Allocated(HT.FirstBlocks(1024), n, 1024)) <= 1024 * (hi - lo)
    ensures Backed(bs[|mvs|], d, lo, hi, h) && h.blocks == H.Allocated(HT.FirstBlocks(1024), n, 1024)
  {
    hide Zone, Moved, HS.FirstMoves, H.Allocated, HS.Carried, H.Good, Fits;
    FirstPages(n);
    MovesCarry(bs, mvs, HS.FirstMoves(n, 1024), d, lo, hi, flags);
    h := H.Heap(Shown(bs[|mvs|], d, lo), H.Allocated(HT.FirstBlocks(1024), n, 1024));
    assert Shown(bs[0], d, lo) == [];
    HS.FirstCarried(n, 1024, h.words);
  }
}
