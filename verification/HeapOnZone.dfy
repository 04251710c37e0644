/** The kernel heap on the words of a page-backed zone: the very pages and stores of its operations,
  carried out by raising the zone's break and storing through its mappings, while others use the
  machine in between. */
module HeapOnZone {
  import H = HeapBlocks
  import HS = HeapStores
  import HT = HeapTags
  import opened PageTree
  import opened AddressSpaces
  import opened BreakZone
  import opened ZoneWords

  /** The words of the zone are those of the heap. */
  ghost predicate Backed(b: Break, d: nat, lo: nat, hi: nat, h: H.Heap) {
    InZone(b, d, lo, hi) && H.Good(h) && Shown(b, d, lo) == h.words
  }

  // ----- accesses as moves

  function ToMove(x: HS.Access): Move {
    match x
    case Page => Raise(1)
    case Poke(k, v) => Poke(k, v)
  }

  function ToMoves(xs: seq<HS.Access>): seq<Move> {
    seq(|xs|, j requires 0 <= j < |xs| => ToMove(xs[j]))
  }

  function NewPages(xs: seq<HS.Access>): nat {
    if xs == [] then 0 else (if xs[0].Page? then 1 else 0) + NewPages(xs[1..])
  }

  lemma {:induction false} NewPagesConcat(xs: seq<HS.Access>, ys: seq<HS.Access>)
    ensures NewPages(xs + ys) == NewPages(xs) + NewPages(ys)
  {
    if xs == [] {
      assert xs + ys == ys;
    } else {
      assert (xs + ys)[1..] == xs[1..] + ys;
      NewPagesConcat(xs[1..], ys);
    }
  }

  /** Whatever was mapped stays mapped to the same frame, and all tables stay. */
  ghost predicate Kept(b: Break, b': Break) {
    && (forall k :: k in b.pages ==> k in b'.pages && b'.pages[k] == b.pages[k])
    && (forall t :: t in b.sys.mem.nodes ==> t in b'.sys.mem.nodes && b'.sys.mem.nodes[t] == b.sys.mem.nodes[t])
  }

  lemma KeptSelf(b: Break)
    ensures Kept(b, b)
  {
  }

  lemma KeptTransitive(b: Break, b1: Break, b2: Break)
    requires Kept(b, b1) && Kept(b1, b2)
    ensures Kept(b, b2)
  {
  }

  lemma RaisedKeeps(b: Break, d: nat, lo: nat, hi: nat, flags: nat, n: nat)
    requires InZone(b, d, lo, hi) && flags < 4096 && CanGrow(b.sys, b.pages, d, lo, b.top, hi, flags, n)
    ensures var (s, a) := Grown(b.sys, b.pages, d, lo, b.top, hi, flags, n);
            Kept(b, Break(s, a, b.top + n))
  {
    hide Zone, CanGrow, Grown, Frames, Data, TakenFrames, Band, Spaces;
    GrownZone(b.sys, b.pages, d, lo, b.top, hi, flags, n);
    GrownMaps(b.sys, b.pages, d, lo, b.top, hi, flags, n);
    NoneAbove(b.sys, b.pages, d, lo, b.top, hi, n);
  }

  /** One access of the heap disturbs no mapping and no table. */
  lemma AccessKeeps(b: Break, d: nat, lo: nat, hi: nat, flags: nat, x: HS.Access, b': Break)
    requires InZone(b, d, lo, hi) && flags < 4096 && Moved(b, d, lo, hi, flags, ToMove(x), b')
    ensures Kept(b, b')
    ensures b'.top == if x.Page? && b.top < hi then b.top + 1 else b.top
  {
    hide Zone, Words, CanGrow, Grown, Step, Enabled, PagesOf, WordAddress;
    match x
    case Page =>
      if b.top < hi {
        RaisedKeeps(b, d, lo, hi, flags, 1);
      }
    case Poke(k, v) =>
      StoreLands(b.sys, b.pages, d, lo, b.top, hi, k, v);
  }

  /** As long as the pages fit the zone, the machine does to the words shown what the accesses do to
    the words of the heap. */
  lemma {:induction false} MovesCarry(
      bs: seq<Break>, mvs: seq<Move>, xs: seq<HS.Access>, d: nat, lo: nat, hi: nat, flags: nat)
    requires Moves(bs, mvs, d, lo, hi, flags) && mvs == ToMoves(xs) && bs[0].top + NewPages(xs) <= hi
    ensures InZone(bs[|mvs|], d, lo, hi) && Kept(bs[0], bs[|mvs|]) && bs[|mvs|].top == bs[0].top + NewPages(xs)
    ensures HS.Carried(Shown(bs[0], d, lo), xs, Shown(bs[|mvs|], d, lo), 1024)
    decreases |xs|
  {
    hide InZone, Moved, Shown, Kept;
    if xs == [] {
      KeptSelf(bs[0]);
    } else {
      assert mvs[0] == ToMove(xs[0]) && mvs[1..] == ToMoves(xs[1..]);
      MoveKeeps(bs[0], d, lo, hi, flags, mvs[0], bs[1]);
      AccessKeeps(bs[0], d, lo, hi, flags, xs[0], bs[1]);
      MovesCarry(bs[1..], mvs[1..], xs[1..], d, lo, hi, flags);
      KeptTransitive(bs[0], bs[1], bs[|mvs|]);
      if xs[0].Page? {
        var w, w1 := Shown(bs[0], d, lo), Shown(bs[1], d, lo);
        assert w1 == w + w1[|w|..];
      }
    }
  }

  // ----- events

  /** What happens: a use of the heap, or an operation of somebody else. */
  datatype Event = Use(use: H.Op) | Foreign(op: Op)

  ghost predicate Legal(blocks: seq<H.Block>, e: Event, words: nat) {
    e.Use? ==> HS.CanUse(blocks, e.use) && H.Span(HS.BlocksAfter(blocks, e.use, 1024)) <= words
  }

  ghost function EventMoves(blocks: seq<H.Block>, e: Event, words: nat): seq<Move>
    requires Legal(blocks, e, words)
  {
    match e
    case Use(op) => ToMoves(HS.UseMoves(blocks, op, 1024))
    case Foreign(op) => [Other(op)]
  }

  ghost function BlocksThen(blocks: seq<H.Block>, e: Event, words: nat): seq<H.Block>
    requires Legal(blocks, e, words)
  {
    match e
    case Use(op) => HS.BlocksAfter(blocks, op, 1024)
    case Foreign(_) => blocks
  }

  /** Clients ask for what they may, and what they ask for fits the zone's `words`. */
  ghost predicate AllLegal(blocks: seq<H.Block>, es: seq<Event>, words: nat)
    decreases es
  {
    es == [] || (Legal(blocks, es[0], words) && AllLegal(BlocksThen(blocks, es[0], words), es[1..], words))
  }

  /** The moves of all events, one event after the other. */
  ghost function HeapMoves(blocks: seq<H.Block>, es: seq<Event>, words: nat): seq<Move>
    requires AllLegal(blocks, es, words)
    decreases es
  {
    if es == [] then []
    else EventMoves(blocks, es[0], words) + HeapMoves(BlocksThen(blocks, es[0], words), es[1..], words)
  }

  /** Others keep to their own frames. */
  ghost predicate AllApart(bs: seq<Break>, mvs: seq<Move>, d: nat, lo: nat) {
    forall j :: 0 <= j < |mvs| < |bs| && mvs[j].Other? ==> Apart(bs[j].pages, d, lo, bs[j].top, mvs[j].op)
  }

  // ----- one event

  /** Accesses that take a good heap to a good one take as many pages as its words gain. */
  lemma {:induction false} CarriedPages(w: seq<nat>, xs: seq<HS.Access>, w': seq<nat>)
    requires HS.Carried(w, xs, w', 1024)
    ensures |w'| == |w| + 1024 * NewPages(xs)
    decreases xs
  {
    if xs == [] {
    } else {
      match xs[0]
      case Page =>
        var more: seq<nat> :| |more| == 1024 && HS.Carried(w + more, xs[1..], w', 1024);
        CarriedPages(w + more, xs[1..], w');
      case Poke(k, v) =>
        CarriedPages(w[k := v], xs[1..], w');
    }
  }

  lemma {:induction false} ServePages(o: nat, have: nat, n: nat)
    ensures have + 1024 * NewPages(HS.ServeMoves(o, have, n, 1024)) == H.GrownTo(have, n, 1024)
    decreases if have < n + 2 then n + 2 - have else 0
  {
    hide H.Header, H.Footer;
    if have >= n + 2 {
      TagPages(o + n + 2, H.Block(have - n - 2, false), HS.TagMoves(o, H.Block(n, true)));
      TagPages(o, H.Block(n, true), []);
      assert HS.TagMoves(o, H.Block(n, true)) + [] == HS.TagMoves(o, H.Block(n, true));
    } else {
      var b, rest := H.Block(have + 1024, false), HS.ServeMoves(o, have + 1024, n, 1024);
      ServePages(o, have + 1024, n);
      TagPages(o, b, rest);
      assert HS.ServeMoves(o, have, n, 1024)[1..] == HS.TagMoves(o, b) + rest;
    }
  }

  lemma TagPages(o: nat, b: H.Block, rest: seq<HS.Access>)
    ensures NewPages(HS.TagMoves(o, b) + rest) == NewPages(rest)
  {
    hide H.Header, H.Footer;
    var xs := HS.TagMoves(o, b) + rest;
    assert xs[1..][1..] == rest;
  }

  /** The pages of a use are those its blocks gain. */
  lemma UsePages(bs: seq<H.Block>, op: H.Op)
    requires H.Shape(bs) && HS.CanUse(bs, op)
    ensures H.Span(bs) + 1024 * NewPages(HS.UseMoves(bs, op, 1024)) == H.Span(HS.BlocksAfter(bs, op, 1024))
  {
    hide H.Span, H.Shape, HS.ServeMoves, HS.ReleaseMoves, H.Released, H.Allocated, H.GrownTo, H.Chosen;
    match op
    case Allocate(n) =>
      H.ChosenBlock(bs, n, 1024);
      var i := H.Chosen(bs, n);
      ServePages(H.Span(bs[..i]), bs[i].words, n);
    case Release(p) =>
      var i := HS.ReleasedBlock(bs, p, 1024);
      ReleasePages(bs, i);
      ReleaseSpan(bs, i);
    case Write(p, k, v) =>
      assert [HS.Access.Poke(p + k, v)][1..] == [];
  }

  lemma ReleasePages(bs: seq<H.Block>, i: nat)
    requires i < |bs|
    ensures NewPages(HS.ReleaseMoves(bs, i)) == 0
  {
    hide H.Span, H.Header, H.Footer, HT.MergedLeft, H.Merged, H.MergeLo, HS.TagMoves, H.NextFree;
    var lo := H.Span(bs[..H.MergeLo(bs, i)]);
    var rest := if H.NextFree(bs, i) then HS.TagMoves(lo, H.Merged(bs, i)) else [];
    TagPages(lo, HT.MergedLeft(bs, i), rest);
    TagPages(lo, H.Merged(bs, i), []);
    assert HS.TagMoves(lo, H.Merged(bs, i)) + [] == HS.TagMoves(lo, H.Merged(bs, i));
  }

  lemma ReleaseSpan(bs: seq<H.Block>, i: nat)
    requires i < |bs|
    ensures H.Span(H.Released(bs, i)) == H.Span(bs)
  {
    hide H.Span, H.MergeLo, H.MergeHi, H.Merged;
    var a, b := H.MergeLo(bs, i), H.MergeHi(bs, i);
    H.SpanPart(bs, a, b);
    H.SpanOne(H.Merged(bs, i));
    H.SpanConcat3(bs[..a], [H.Merged(bs, i)], bs[b..]);
  }

  /** How far the break is from the start, for a heap that the zone shows. */
  lemma BackedTop(b: Break, d: nat, lo: nat, hi: nat, h: H.Heap)
    requires Backed(b, d, lo, hi, h)
    ensures |h.words| == 1024 * (b.top - lo) && lo <= b.top <= hi
    ensures H.Shape(h.blocks) && H.Span(h.blocks) == |h.words|
  {
    hide Zone, Words, H.Tiles, H.Shape;
    ZoneShows(b.sys, b.pages, d, lo, b.top, hi);
    WordsSame(b.sys.mem.ram, b.sys.mem.ram, b.pages, b.pages, d, lo, b.top);
    ZoneTaken(b.sys, b.pages, d, lo, b.top, hi);
  }

  /** How an event may change the heap. */
  ghost predicate Happens(h: H.Heap, e: Event, h': H.Heap)
    requires H.Good(h) && H.Good(h')
  {
    match e
    case Use(op) => H.Step(1024, h, op, h') && H.Effect(h, op, h')
    case Foreign(_) => h' == h
  }

  /** An allocation, a release or a client's write: whenever the machine carries out its pages and
    stores, the zone shows the new heap.  None of the stores falls into a payload that lives through
    it, but for the client's own write. */
  lemma UseOnZone(
      bs: seq<Break>, mvs: seq<Move>, d: nat, lo: nat, hi: nat, flags: nat, h: H.Heap, op: H.Op)
    returns (h': H.Heap)
    requires bs != [] && Backed(bs[0], d, lo, hi, h) && Legal(h.blocks, Use(op), 1024 * (hi - lo))
    requires Moves(bs, mvs, d, lo, hi, flags) && mvs == EventMoves(h.blocks, Use(op), 1024 * (hi - lo))
    ensures Backed(bs[|mvs|], d, lo, hi, h') && Happens(h, Use(op), h')
    ensures h'.blocks == BlocksThen(h.blocks, Use(op), 1024 * (hi - lo)) && Kept(bs[0], bs[|mvs|])
    ensures forall p :: p in H.Contents(h) && !H.Touches(op, p) ==>
              HS.Misses(HS.UseMoves(h.blocks, op, 1024), p, |H.Contents(h)[p]|)
  {
    hide Zone, Words, HS.UseMoves, HS.BlocksAfter, HS.Carried, H.Good, H.Step, H.Effect, HS.CanUse;
    BackedTop(bs[0], d, lo, hi, h);
    var xs := HS.UseMoves(h.blocks, op, 1024);
    UsePages(h.blocks, op);
    MovesCarry(bs, mvs, xs, d, lo, hi, flags);
    h' := H.Heap(Shown(bs[|mvs|], d, lo), HS.BlocksAfter(h.blocks, op, 1024));
    HS.UseCarried(1024, h, op, h'.words);
    forall p | p in H.Contents(h) && !H.Touches(op, p)
      ensures HS.Misses(xs, p, |H.Contents(h)[p]|)
    {
      HS.UseMisses(1024, h, op, p);
    }
  }
}
