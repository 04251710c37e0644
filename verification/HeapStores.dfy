/** Each operation of the kernel heap as the list of its accesses to memory. */
module HeapStores {
  import opened HeapBlocks
  import opened HeapTags

  /** One access: a page more at the top, or a store to the word at an offset. */
  datatype Access = Page | Poke(k: nat, v: nat)

  /** The accesses `xs` take the words `w` to `w'`; a new page brings words of its own. */
  ghost predicate Carried(w: seq<nat>, xs: seq<Access>, w': seq<nat>, page: nat)
    decreases xs
  {
    if xs == [] then w' == w
    else
      match xs[0]
      case Page => exists more: seq<nat> :: |more| == page && Carried(w + more, xs[1..], w', page)
      case Poke(k, v) => k < |w| && Carried(w[k := v], xs[1..], w', page)
  }

  lemma NoneCarried(w: seq<nat>, page: nat)
    ensures Carried(w, [], w, page)
  {
  }

  lemma {:induction false} CarriedParts(w: seq<nat>, xs: seq<Access>, ys: seq<Access>, w': seq<nat>, page: nat)
    returns (v: seq<nat>)
    requires Carried(w, xs + ys, w', page)
    ensures Carried(w, xs, v, page) && Carried(v, ys, w', page)
    decreases xs
  {
    if xs == [] {
      assert xs + ys == ys;
      v := w;
    } else {
      assert (xs + ys)[0] == xs[0] && (xs + ys)[1..] == xs[1..] + ys;
      match xs[0]
      case Page =>
        var more: seq<nat> :| |more| == page && Carried(w + more, xs[1..] + ys, w', page);
        v := CarriedParts(w + more, xs[1..], ys, w', page);
      case Poke(k, x) =>
        v := CarriedParts(w[k := x], xs[1..], ys, w', page);
    }
  }

  lemma {:induction false} CarriedThen(
      w: seq<nat>, xs: seq<Access>, v: seq<nat>, ys: seq<Access>, w': seq<nat>, page: nat)
    requires Carried(w, xs, v, page) && Carried(v, ys, w', page)
    ensures Carried(w, xs + ys, w', page)
    decreases xs
  {
    if xs == [] {
      assert xs + ys == ys;
    } else {
      assert (xs + ys)[0] == xs[0] && (xs + ys)[1..] == xs[1..] + ys;
      match xs[0]
      case Page =>
        var more: seq<nat> :| |more| == page && Carried(w + more, xs[1..], v, page);
        CarriedThen(w + more, xs[1..], v, ys, w', page);
      case Poke(k, x) =>
        CarriedThen(w[k := x], xs[1..], v, ys, w', page);
    }
  }

  /** A store, at the end of what was carried out. */
  lemma ThenPoke(w: seq<nat>, xs: seq<Access>, v: seq<nat>, k: nat, x: nat, page: nat)
    requires Carried(w, xs, v, page) && k < |v|
    ensures Carried(w, xs + [Poke(k, x)], v[k := x], page)
  {
    assert [Poke(k, x)][1..] == [];
    CarriedThen(w, xs, v, [Poke(k, x)], v[k := x], page);
  }

  /** A page, at the end of what was carried out. */
  lemma ThenPage(w: seq<nat>, xs: seq<Access>, v: seq<nat>, v': seq<nat>, page: nat)
    requires Carried(w, xs, v, page) && |v'| == |v| + page && v'[..|v|] == v
    ensures Carried(w, xs + [Page], v', page)
  {
    assert v' == v + v'[|v|..];
    assert [Page][1..] == [];
    CarriedThen(w, xs, v, [Page], v', page);
  }

  // ----- the accesses of each operation

  /** Header, then footer. */
  function TagMoves(o: nat, b: Block): seq<Access> {
    [Poke(o, Header(b)), Poke(o + b.words + 1, Footer(b))]
  }

  /** The free rest is tagged first, then the block that is handed out. */
  function CleftMoves(o: nat, n: nat, g: nat): seq<Access>
    requires g >= n + 2
  {
    TagMoves(o + n + 2, Block(g - n - 2, false)) + TagMoves(o, Block(n, true))
  }

  /** A block of `have` words at `o` serves `n` words, after as many pages as that takes. */
  ghost function ServeMoves(o: nat, have: nat, n: nat, page: nat): seq<Access>
    requires page > 0
    decreases if have < n + 2 then n + 2 - have else 0
  {
    if have >= n + 2 then CleftMoves(o, n, have)
    else [Page] + TagMoves(o, Block(have + page, false)) + ServeMoves(o, have + page, n, page)
  }

  ghost function AllocateMoves(bs: seq<Block>, n: nat, page: nat): seq<Access>
    requires bs != [] && page > 0
  {
    var i := Chosen(bs, n);
    ServeMoves(Span(bs[..i]), bs[i].words, n, page)
  }

  /** A round of growth is the beginning of the allocation; the rest is that of the grown heap. */
  lemma MovesGrow(bs: seq<Block>, n: nat, page: nat)
    requires page > 0 && bs != [] && FirstFit(bs, n) == |bs| && bs[|bs| - 1].words < n + 2
    ensures var last := |bs| - 1;
            var b := Block(bs[last].words + page, false);
            AllocateMoves(bs, n, page)
            == [Page] + TagMoves(Span(bs[..last]), b) + AllocateMoves(bs[..last] + [b], n, page)
  {
    hide Span, TagMoves, FirstFit, ServeMoves;
    var last := |bs| - 1;
    var b := Block(bs[last].words + page, false);
    GrowFit(bs, b, n);
    LastChosen(bs[..last] + [b], n);
    assert (bs[..last] + [b])[..last] == bs[..last];
    ServeGrows(Span(bs[..last]), bs[last].words, n, page);
  }

  lemma LastChosen(bs: seq<Block>, n: nat)
    requires bs != [] && FirstFit(bs, n) >= |bs| - 1
    ensures Chosen(bs, n) == |bs| - 1
  {
  }

  lemma ServeGrows(o: nat, have: nat, n: nat, page: nat)
    requires page > 0 && have < n + 2
    ensures ServeMoves(o, have, n, page)
            == [Page] + TagMoves(o, Block(have + page, false)) + ServeMoves(o, have + page, n, page)
  {
  }

  /** The first request also takes the first page and writes its header. */
  ghost function FirstMoves(n: nat, page: nat): seq<Access>
    requires page >= 2
  {
    [Page, Poke(0, Header(FirstBlocks(page)[0]))] + AllocateMoves(FirstBlocks(page), n, page)
  }

  /** The block with its predecessor, if that is free, is tagged first, then the whole. */
  ghost function ReleaseMoves(bs: seq<Block>, i: nat): seq<Access>
    requires i < |bs|
  {
    var lo := Span(bs[..MergeLo(bs, i)]);
    TagMoves(lo, MergedLeft(bs, i)) + if NextFree(bs, i) then TagMoves(lo, Merged(bs, i)) else []
  }

  // ----- what they do to the words

  lemma TagsCarried(w: seq<nat>, o: nat, b: Block, w': seq<nat>, page: nat)
    requires o + b.words + 2 <= |w| && Carried(w, TagMoves(o, b), w', page)
    ensures w' == Tagged(w, o, b)
  {
    hide Header, Footer;
    var xs := TagMoves(o, b);
    assert xs[1..] == [Poke(o + b.words + 1, Footer(b))] && xs[1..][1..] == [];
    assert Carried(w[o := Header(b)], xs[1..], w', page);
  }

  lemma CleftCarried(w: seq<nat>, o: nat, n: nat, g: nat, w': seq<nat>, page: nat)
    requires g >= n + 2 && o + g + 2 <= |w| && Carried(w, CleftMoves(o, n, g), w', page)
    ensures w' == Cleft(w, o, n, g)
  {
    hide Carried, TagMoves, Tagged;
    var v := CarriedParts(w, TagMoves(o + n + 2, Block(g - n - 2, false)), TagMoves(o, Block(n, true)), w', page);
    TagsCarried(w, o + n + 2, Block(g - n - 2, false), v, page);
    TagsCarried(v, o, Block(n, true), w', page);
  }

  /** One round of growth, read off the accesses. */
  lemma RoundCarried(w: seq<nat>, o: nat, b: Block, rest: seq<Access>, w': seq<nat>, page: nat)
    returns (w1: seq<nat>)
    requires Carried(w, [Page] + TagMoves(o, b) + rest, w', page) && o + b.words + 2 == |w| + page
    ensures |w1| == |w| + page && w1[..|w|] == w && Carried(Tagged(w1, o, b), rest, w', page)
  {
    hide TagMoves, Tagged;
    var xs := [Page] + TagMoves(o, b) + rest;
    assert xs[0] == Page && xs[1..] == TagMoves(o, b) + rest;
    var more: seq<nat> :| |more| == page && Carried(w + more, xs[1..], w', page);
    w1 := w + more;
    var v := CarriedParts(w1, TagMoves(o, b), rest, w', page);
    TagsCarried(w1, o, b, v, page);
  }

  /** The accesses of the round that a heap without a fit begins with, and what it leaves to do. */
  lemma GrowthCarried(h0: Heap, h: Heap, n: nat, page: nat, w': seq<nat>) returns (h1: Heap)
    requires page > 0 && GrownFrom(h0, h, n, page) && FirstFit(h.blocks, n) == |h.blocks| && h.blocks != []
    requires Carried(h.words, AllocateMoves(h.blocks, n, page), w', page)
    ensures GrownFrom(h0, h1, n, page) && |h1.blocks| == |h.blocks|
    ensures Chosen(h1.blocks, n) == Chosen(h.blocks, n) == |h.blocks| - 1
    ensures Carried(h1.words, AllocateMoves(h1.blocks, n, page), w', page)
    ensures h1.blocks[|h.blocks| - 1].words == h.blocks[|h.blocks| - 1].words + page
    ensures h.blocks[|h.blocks| - 1].words < n + 2
  {
    hide GrownFrom, Carried, Span, TagMoves, Tagged, FirstFit, AllocateMoves;
    var last := |h.blocks| - 1;
    var o, b := Span(h.blocks[..last]), Block(h.blocks[last].words + page, false);
    LastUnfits(h0, h, n, page);
    WholeHeap(h0, h, n, page);
    MovesGrow(h.blocks, n, page);
    var w1 := RoundCarried(h.words, o, b, AllocateMoves(h.blocks[..last] + [b], n, page), w', page);
    GrowByPage(h0, h, w1, n, page);
    h1 := Heap(Tagged(w1, o, b), h.blocks[..last] + [b]);
    LastChosen(h1.blocks, n);
  }

  lemma {:induction false} ServeCarried(h0: Heap, h: Heap, n: nat, page: nat, w': seq<nat>)
    requires page > 0 && GrownFrom(h0, h, n, page) && h.blocks != [] && Chosen(h.blocks, n) == Chosen(h0.blocks, n)
    requires Carried(h.words, AllocateMoves(h.blocks, n, page), w', page)
    ensures Allocates(h0, n, page, Heap(w', Allocated(h0.blocks, n, page)))
    decreases if h.blocks[Chosen(h.blocks, n)].words < n + 2 then n + 2 - h.blocks[Chosen(h.blocks, n)].words else 0
  {
    hide GrownFrom, Carried, Allocates, Span, CleftMoves, Allocated, FirstFit;
    var i := Chosen(h.blocks, n);
    if FirstFit(h.blocks, n) == |h.blocks| {
      var h1 := GrowthCarried(h0, h, n, page, w');
      ServeCarried(h0, h1, n, page, w');
    } else {
      FoundAllocates(h0, h, n, page, i);
      CleftCarried(h.words, Span(h.blocks[..i]), n, h.blocks[i].words, w', page);
    }
  }

  lemma LastUnfits(h0: Heap, h: Heap, n: nat, page: nat)
    requires page > 0 && GrownFrom(h0, h, n, page) && FirstFit(h.blocks, n) == |h.blocks|
    ensures h.blocks != [] && h.blocks[|h.blocks| - 1].words < n + 2
  {
    LastUnfit(h, n);
  }

  lemma WholeHeap(h0: Heap, h: Heap, n: nat, page: nat)
    requires page > 0 && GrownFrom(h0, h, n, page)
    ensures h.blocks != []
    ensures var last := |h.blocks| - 1;
            Span(h.blocks[..last]) + h.blocks[last].words + 2 == |h.words|
  {
    WholeSpan(h);
  }

  /** The accesses of an allocation carry it out. */
  lemma AllocateCarried(h: Heap, n: nat, page: nat, w': seq<nat>)
    requires Good(h) && page >= 2 && Carried(h.words, AllocateMoves(h.blocks, n, page), w', page)
    ensures Allocates(h, n, page, Heap(w', Allocated(h.blocks, n, page)))
  {
    hide GrownFrom, Carried, AllocateMoves, Allocates, Good;
    SearchBegins(h, n, page);
    ServeCarried(h, h, n, page, w');
  }

  /** So do those of the first one, from no memory at all. */
  lemma FirstCarried(n: nat, page: nat, w': seq<nat>)
    requires page >= 2 && Carried([], FirstMoves(n, page), w', page)
    ensures Good(Heap(w', Allocated(FirstBlocks(page), n, page)))
  {
    hide AllocateMoves, GrownFrom, Allocates, Good, Allocated;
    var init, rest := [Page, Poke(0, Header(FirstBlocks(page)[0]))], AllocateMoves(FirstBlocks(page), n, page);
    var v := CarriedParts([], init, rest, w', page);
    assert init[1..] == [Poke(0, Header(FirstBlocks(page)[0]))] && init[1..][1..] == [];
    var more: seq<nat> :| |more| == page && Carried([] + more, init[1..], v, page);
    assert Carried(([] + more)[0 := Header(FirstBlocks(page)[0])], init[1..][1..], v, page);
    var h := Heap(v, FirstBlocks(page));
    SearchBegins(h, n, page);
    ServeCarried(h, h, n, page, w');
    Served(h, h, n, page, Heap(w', Allocated(FirstBlocks(page), n, page)));
  }

  /** The accesses of a release carry it out. */
  lemma ReleaseCarried(h: Heap, i: nat, w': seq<nat>, page: nat)
    requires Good(h) && i < |h.blocks| && Carried(h.words, ReleaseMoves(h.blocks, i), w', page)
    ensures Releases(h, i, Heap(w', Released(h.blocks, i)))
  {
    hide Carried, TagMoves, Tagged, Releases, Released, Merged, MergedLeft, MergeLo, NextFree, Good, Span;
    var bs, lo := h.blocks, Span(h.blocks[..MergeLo(h.blocks, i)]);
    RetaggedReleases(h, i);
    if NextFree(bs, i) {
      var v := CarriedParts(h.words, TagMoves(lo, MergedLeft(bs, i)), TagMoves(lo, Merged(bs, i)), w', page);
      TagsCarried(h.words, lo, MergedLeft(bs, i), v, page);
      TagsCarried(v, lo, Merged(bs, i), w', page);
    } else {
      assert ReleaseMoves(bs, i) == TagMoves(lo, MergedLeft(bs, i));
      TagsCarried(h.words, lo, MergedLeft(bs, i), w', page);
    }
  }

  // ----- where they store

  /** No store falls into the payload of `len` words at `p`. */
  ghost predicate Misses(xs: seq<Access>, p: nat, len: nat) {
    forall x :: x in xs && x.Poke? ==> x.k < p || p + len <= x.k
  }

  /** Stores at `lo` or later and, unless `open`, before `hi`. */
  ghost predicate Within(xs: seq<Access>, lo: nat, hi: nat, open: bool) {
    forall x :: x in xs && x.Poke? ==> lo <= x.k && (open || x.k < hi)
  }

  lemma {:induction false} ServeWithin(o: nat, have: nat, n: nat, page: nat)
    requires page > 0
    ensures Within(ServeMoves(o, have, n, page), o, o + have + 2, have < n + 2)
    decreases if have < n + 2 then n + 2 - have else 0
  {
    if have >= n + 2 {
    } else {
      ServeWithin(o, have + page, n, page);
    }
  }

  lemma ReleaseWithin(bs: seq<Block>, i: nat)
    requires i < |bs|
    ensures Within(ReleaseMoves(bs, i), Span(bs[..MergeLo(bs, i)]), Span(bs[..MergeHi(bs, i)]), false)
  {
    hide Span, Header, Footer, Merged, MergedLeft, MergeLo, NextFree;
    MergeSpans(bs, i);
    MergeGrows(bs, i);
  }

  lemma MergeGrows(bs: seq<Block>, i: nat)
    requires i < |bs|
    ensures Merged(bs, i).words >= MergedLeft(bs, i).words
  {
    MergeSpans(bs, i);
  }

  /** Payloads of other blocks end before blocks `a` to `b`, or begin after them. */
  lemma PayloadOutside(bs: seq<Block>, w: seq<nat>, a: nat, b: nat, p: nat)
    requires |w| == Span(bs) && a <= b <= |bs| && p in Buffers(bs, 0, w)
    ensures Span(bs[..a]) <= Span(bs[..b]) <= |w|
    ensures Span(bs[..a]) + Span(bs[a..b]) == Span(bs[..b])
    ensures || p in Buffers(bs[a..b], Span(bs[..a]), w[Span(bs[..a])..Span(bs[..b])])
            || p + |Buffers(bs, 0, w)[p]| <= Span(bs[..a])
            || Span(bs[..b]) <= p
  {
    hide Buffers, Span;
    var l, m, r := bs[..a], bs[a..b], bs[b..];
    SpanPart(bs, a, b);
    assert bs == l + m + r;
    BuffersParts(l, m, r, w);
    BufferBounds(l, 0, w[..Span(l)]);
    BuffersAbove(r, Span(bs[..b]), w[Span(bs[..b])..]);
  }

  /** An allocation stores into no payload there is. */
  lemma AllocateMisses(h: Heap, n: nat, page: nat, p: nat)
    requires Good(h) && page > 0 && p in Contents(h)
    ensures Misses(AllocateMoves(h.blocks, n, page), p, |Contents(h)[p]|)
  {
    hide Buffers, Span, ServeMoves, Tiles;
    var bs, w, i := h.blocks, h.words, Chosen(h.blocks, n);
    ChosenBlock(bs, n, page);
    SpanAround(bs, i);
    Around(bs, i);
    PayloadOutside(bs, w, i, i + 1, p);
    BuffersOne(bs[i], Span(bs[..i]), w[Span(bs[..i])..Span(bs[..i + 1])]);
    ServeWithin(Span(bs[..i]), bs[i].words, n, page);
    if bs[i].words < n + 2 {
      assert bs[..i + 1] == bs;
      BuffersBelow(bs, 0, w);
    }
  }

  /** A release stores into no payload but the released one. */
  lemma ReleaseMisses(h: Heap, i: nat, p: nat)
    requires Good(h) && i < |h.blocks| && h.blocks[i].live && p in Contents(h) && p != Span(h.blocks[..i]) + 1
    ensures Misses(ReleaseMoves(h.blocks, i), p, |Contents(h)[p]|)
  {
    hide Buffers, Span, ReleaseMoves, Tiles, MergeLo, MergeHi;
    var bs, w := h.blocks, h.words;
    var a, b := MergeLo(bs, i), MergeHi(bs, i);
    PayloadOutside(bs, w, a, b, p);
    SpanPart(bs, a, i);
    var m := Buffers(bs[a..b], Span(bs[..a]), w[Span(bs[..a])..Span(bs[..b])]);
    BuffersMerged(bs, i, Span(bs[..a]), w[Span(bs[..a])..Span(bs[..b])]);
    assert p !in m.Keys;
    ReleaseWithin(bs, i);
  }

  // ----- any use of the heap

  /** The operation is one that a client may ask for. */
  ghost predicate CanUse(bs: seq<Block>, op: Op) {
    match op
    case Allocate(_) => bs != []
    case Release(p) => exists i: nat :: LiveAt(bs, i, p)
    case Write(p, k, _) => exists i: nat :: LiveAt(bs, i, p) && k < bs[i].words
  }

  ghost function UseMoves(bs: seq<Block>, op: Op, page: nat): seq<Access>
    requires CanUse(bs, op) && page > 0
  {
    match op
    case Allocate(n) => AllocateMoves(bs, n, page)
    case Release(p) =>
      var i: nat :| LiveAt(bs, i, p);
      ReleaseMoves(bs, i)
    case Write(p, k, v) => [Poke(p + k, v)]
  }

  ghost function BlocksAfter(bs: seq<Block>, op: Op, page: nat): seq<Block>
    requires CanUse(bs, op) && page > 0
  {
    match op
    case Allocate(n) => Allocated(bs, n, page)
    case Release(p) =>
      var i: nat :| LiveAt(bs, i, p);
      Released(bs, i)
    case Write(_, _, _) => bs
  }

  /** A payload starts in one block only. */
  lemma LiveOnce(bs: seq<Block>, i: nat, j: nat, p: nat)
    requires LiveAt(bs, i, p) && LiveAt(bs, j, p)
    ensures i == j
  {
    hide Span;
    if i < j {
      SpanBelow(bs, i, j);
    } else if j < i {
      SpanBelow(bs, j, i);
    }
  }

  lemma ReleasedBlock(bs: seq<Block>, p: nat, page: nat) returns (i: nat)
    requires CanUse(bs, Release(p)) && page > 0
    ensures LiveAt(bs, i, p)
    ensures UseMoves(bs, Release(p), page) == ReleaseMoves(bs, i)
    ensures BlocksAfter(bs, Release(p), page) == Released(bs, i)
  {
    hide Span, ReleaseMoves, Released;
    i :| LiveAt(bs, i, p);
    forall j: nat | LiveAt(bs, j, p)
      ensures j == i
    {
      LiveOnce(bs, i, j, p);
    }
  }

  lemma SpanBelow(bs: seq<Block>, i: nat, j: nat)
    requires i < j <= |bs|
    ensures Span(bs[..i]) + bs[i].words + 2 <= Span(bs[..j])
  {
    hide Span;
    SpanAround(bs, i);
    assert bs[..j][..i + 1] == bs[..i + 1];
    SpanPart(bs[..j], i + 1, j);
  }

  /** What clients see of block `i`. */
  lemma LiveBuffer(bs: seq<Block>, w: seq<nat>, i: nat, p: nat)
    requires |w| == Span(bs) && LiveAt(bs, i, p)
    ensures p in Buffers(bs, 0, w) && |Buffers(bs, 0, w)[p]| == bs[i].words && p + bs[i].words < |w|
  {
    hide Buffers, Span;
    var l, m, r := bs[..i], bs[i..i + 1], bs[i + 1..];
    SpanAround(bs, i);
    Around(bs, i);
    SpanPart(bs, i, i + 1);
    assert bs == l + m + r;
    BuffersParts(l, m, r, w);
    BuffersOne(bs[i], Span(l), w[Span(l)..Span(l) + Span(m)]);
    BuffersAbove(r, Span(l) + Span(m), w[Span(l) + Span(m)..]);
  }

  /** The accesses of any operation carry it out. */
  lemma UseCarried(page: nat, h: Heap, op: Op, w': seq<nat>)
    requires Good(h) && page >= 2 && CanUse(h.blocks, op)
    requires Carried(h.words, UseMoves(h.blocks, op, page), w', page)
    ensures var h' := Heap(w', BlocksAfter(h.blocks, op, page));
            Step(page, h, op, h') && Good(h') && Effect(h, op, h')
  {
    hide Tiles, Shape, Span, AllocateMoves, ReleaseMoves, Allocates, Releases, Released, Allocated, Buffers;
    var h' := Heap(w', BlocksAfter(h.blocks, op, page));
    match op {
    case Allocate(n) =>
      AllocateCarried(h, n, page, w');
    case Release(p) =>
      var i := ReleasedBlock(h.blocks, p, page);
      ReleaseCarried(h, i, w', page);
    case Write(p, k, v) =>
      var i: nat :| LiveAt(h.blocks, i, p) && k < h.blocks[i].words;
      LiveBuffer(h.blocks, h.words, i, p);
      assert [Poke(p + k, v)][1..] == [];
    }
    StepKeeps(page, h, op, h');
  }

  /** No operation stores into a payload that is live before and after it, but for the client's own
    write. */
  lemma UseMisses(page: nat, h: Heap, op: Op, p: nat)
    requires Good(h) && page > 0 && CanUse(h.blocks, op) && p in Contents(h) && !Touches(op, p)
    ensures Misses(UseMoves(h.blocks, op, page), p, |Contents(h)[p]|)
  {
    hide Tiles, Shape, Span, AllocateMoves, ReleaseMoves, Buffers;
    match op
    case Allocate(n) => AllocateMisses(h, n, page, p);
    case Release(q) =>
      var i := ReleasedBlock(h.blocks, q, page);
      ReleaseMisses(h, i, p);
    case Write(q, k, v) =>
      var i: nat :| LiveAt(h.blocks, i, q) && k < h.blocks[i].words;
      LiveBuffer(h.blocks, h.words, i, q);
      BufferBounds(h.blocks, 0, h.words);
  }
}
