/** The tags of the kernel heap: reading them out of a tiled heap, and what rewriting them does. */
module HeapTags {
  import opened HeapBlocks

  // Machine words are 4 bytes (the x86 build); literals keep the tag arithmetic linear.

  function AlignDown(x: nat): nat {
    x - x % 4
  }

  predicate IsPresent(tag: nat) {
    tag % 2 == 1
  }

  predicate IsFooter(tag: nat) {
    tag / 2 % 2 == 1
  }

  lemma TagBits(words: nat, flags: nat)
    requires flags < 4
    ensures var tag := 4 * words + flags;
            && AlignDown(tag) == 4 * words
            && (IsPresent(tag) <==> flags % 2 == 1) && (IsFooter(tag) <==> flags >= 2)
  {
    var half := 2 * words + flags / 2;
    assert 4 * words + flags == 2 * half + flags % 2;
    Remainder(4, words, flags);
    Remainder(2, half, flags % 2);
    Remainder(2, words, flags / 2);
  }

  lemma Remainder(m: nat, q: nat, r: nat)
    requires (m == 2 || m == 4) && r < m
    ensures (m * q + r) / m == q && (m * q + r) % m == r
  {
  }

  /** The flag bits of a header never disturb the size it holds. */
  lemma TagOf(b: Block)
    ensures IsPresent(Header(b)) == b.live && AlignDown(Header(b)) == 4 * b.words
    ensures IsPresent(Footer(b)) == b.live && AlignDown(Footer(b)) == 4 * b.words
    ensures !IsFooter(Header(b)) && IsFooter(Footer(b))
    ensures Header(b) / 4 == b.words && Header(b) % 4 == if b.live then 1 else 0
    ensures Footer(b) / 4 == b.words && Footer(b) % 4 == if b.live then 3 else 2
  {
    hide IsPresent, IsFooter, AlignDown;
    TagBits(b.words, if b.live then 1 else 0);
    TagBits(b.words, if b.live then 3 else 2);
  }

  // ----- reading tags out of a tiled heap

  lemma SpanNone(bs: seq<Block>)
    ensures Span(bs[..0]) == 0
  {
  }

  lemma SpanFirst(bs: seq<Block>)
    requires bs != []
    ensures Span(bs) == bs[0].words + 2 + Span(bs[1..])
  {
  }

  lemma TilesFirst(bs: seq<Block>, w: seq<nat>)
    requires Tiles(bs, w) && bs != []
    ensures var d := bs[0].words + 2;
            |w| >= d && w[0] == Header(bs[0]) && w[d - 1] == Footer(bs[0]) && Tiles(bs[1..], w[d..])
  {
  }

  lemma {:induction false} TagsAt(bs: seq<Block>, w: seq<nat>, i: nat)
    requires Tiles(bs, w) && i < |bs|
    ensures Span(bs[..i]) + bs[i].words + 2 == Span(bs[..i + 1]) <= |w|
    ensures w[Span(bs[..i])] == Header(bs[i]) && w[Span(bs[..i + 1]) - 1] == Footer(bs[i])
  {
    hide Span, Tiles, Header, Footer;
    SpanAround(bs, i);
    TilesSpan(bs, w);
    TilesFirst(bs, w);
    if i == 0 {
      SpanNone(bs);
    } else {
      var d := bs[0].words + 2;
      assert bs[..i][1..] == bs[1..][..i - 1] && bs[..i + 1][1..] == bs[1..][..i];
      SpanFirst(bs[..i]);
      SpanFirst(bs[..i + 1]);
      TagsAt(bs[1..], w[d..], i - 1);
    }
  }

  lemma HalvesTiles(n: nat, g: nat, part: seq<nat>)
    requires g >= n + 2 && |part| == g + 2
    requires part[0] == Header(Block(n, true)) && part[n + 1] == Footer(Block(n, true))
    requires part[n + 2] == Header(Block(g - n - 2, false)) && part[g + 1] == Footer(Block(g - n - 2, false))
    ensures Tiles(Halves(n, g), part)
  {
    var b := Block(g - n - 2, false);
    assert Halves(n, g)[1..] == [b];
    assert [b][1..] == [];
    assert part[n + 2..][g - n - 1] == part[g + 1];
    assert Tiles([b], part[n + 2..]);
  }

  lemma OneTiles(b: Block, part: seq<nat>)
    requires |part| == b.words + 2 && part[0] == Header(b) && part[b.words + 1] == Footer(b)
    ensures Tiles([b], part)
  {
    assert [b][1..] == [];
  }

  // ----- growth during a search

  /** The first page holds one free block. */
  function FirstBlocks(page: nat): seq<Block>
    requires page >= 2
  {
    [Block(page - 2, false)]
  }

  /** All headers are right, and so are all footers, except that the lone block written by
    `init` has none yet. */
  ghost predicate Searchable(h: Heap) {
    && Shape(h.blocks) && Span(h.blocks) == |h.words|
    && (Tiles(h.blocks, h.words)
        || (|h.blocks| == 1 && h.words[0] == Header(h.blocks[0])))
  }

  /** `h` is `h0` with, at most, its last block grown because nothing fits `n`. */
  ghost predicate GrownFrom(h0: Heap, h: Heap, n: nat, page: nat)
    requires page > 0
  {
    && Searchable(h0) && Searchable(h)
    && (h == h0
        || (&& FirstFit(h0.blocks, n) == |h0.blocks|
            && var last := |h0.blocks| - 1;
            && |h.blocks| == last + 1
            && h.blocks[..last] == h0.blocks[..last]
            && !h.blocks[last].live
            && h.blocks[last].words >= h0.blocks[last].words
            && GrownTo(h.blocks[last].words, n, page) == GrownTo(h0.blocks[last].words, n, page)
            && Span(h.blocks[..last]) <= |h.words|
            && Span(h.blocks[..last]) <= |h0.words|
            && h.words[..Span(h.blocks[..last])] == h0.words[..Span(h.blocks[..last])]))
  }

  lemma FirstHeader(page: nat)
    requires page >= 2
    ensures Header(FirstBlocks(page)[0]) == 4 * page - 8
  {
  }

  /** Examining block `i` after rejecting all before it decides whether it is the first fit. */
  lemma FitTest(bs: seq<Block>, n: nat, i: nat)
    requires i < |bs| && FirstFit(bs, n) >= i
    ensures FirstFit(bs, n) == i <==> !bs[i].live && bs[i].words >= n + 2
  {
  }

  lemma SearchBegins(h: Heap, n: nat, page: nat)
    requires page >= 2
    requires Good(h) || (h.blocks == FirstBlocks(page) && |h.words| == page && h.words[0] == Header(h.blocks[0]))
    ensures GrownFrom(h, h, n, page) && h.blocks != []
  {
    if !Good(h) {
      SpanOne(h.blocks[0]);
    }
  }

  lemma SearchableHeader(h0: Heap, h: Heap, n: nat, page: nat, i: nat)
    requires page > 0 && GrownFrom(h0, h, n, page) && i < |h.blocks|
    ensures Span(h.blocks[..i]) + h.blocks[i].words + 2 == Span(h.blocks[..i + 1]) <= |h.words|
    ensures h.words[Span(h.blocks[..i])] == Header(h.blocks[i])
    ensures Span(h.blocks[..i + 1]) == |h.words| <==> i == |h.blocks| - 1
  {
    SpanAround(h.blocks, i);
    if Tiles(h.blocks, h.words) {
      TagsAt(h.blocks, h.words, i);
    }
    if i == |h.blocks| - 1 {
      assert h.blocks[..i + 1] == h.blocks;
    } else {
      assert h.blocks[i + 1..] != [];
    }
  }

  /** Rewriting the last block, tags and all, leaves a tiled heap. */
  lemma LastTiles(front: seq<Block>, b: Block, b': Block, w: seq<nat>, w': seq<nat>)
    requires Searchable(Heap(w, front + [b]))
    requires var o := Span(front);
             && o + b'.words + 2 == |w'| && o <= |w| && w'[..o] == w[..o]
             && w'[o] == Header(b') && w'[|w'| - 1] == Footer(b')
    ensures Tiles(front + [b'], w') && Span(front + [b']) == |w'|
  {
    var o := Span(front);
    SpanConcat(front, [b]);
    SpanConcat(front, [b']);
    SpanOne(b');
    OneTiles(b', w'[o..]);
    assert w == w[..o] + w[o..] && w' == w'[..o] + w'[o..];
    if Tiles(front + [b], w) {
      TilesConcat(front, [b], w[..o], w[o..]);
    } else {
      assert front == [] && w[..o] == [];
    }
    TilesConcat(front, [b'], w'[..o], w'[o..]);
  }

  /** `w` with the tags of block `b` written at word `o`. */
  function Tagged(w: seq<nat>, o: nat, b: Block): (w': seq<nat>)
    requires o + b.words + 2 <= |w|
    ensures |w'| == |w|
  {
    w[o := Header(b)][o + b.words + 1 := Footer(b)]
  }

  /** Even the smallest request takes the first page. */
  lemma FirstNeedsPage(n: nat, page: nat)
    requires page >= 2
    ensures Span(Allocated(FirstBlocks(page), n, page)) >= page
  {
    SpanOne(FirstBlocks(page)[0]);
    ChosenBlock(FirstBlocks(page), n, page);
  }

  lemma RegrownPrefix(w: seq<nat>, w': seq<nat>, o: nat, b: Block)
    requires o <= |w| <= |w'| && w'[..|w|] == w && o + b.words + 2 == |w'|
    ensures Tagged(w', o, b)[..o] == w[..o]
    ensures Tagged(w', o, b)[o] == Header(b) && Tagged(w', o, b)[|w'| - 1] == Footer(b)
  {
    assert w'[..|w|][..o] == w'[..o];
  }

  /** One page on the last block, and its tags: all headers and footers are right again. */
  lemma GrowSearchable(h: Heap, b: Block, words: seq<nat>)
    requires Searchable(h) && !b.live && b.words >= h.blocks[|h.blocks| - 1].words
    requires var o := Span(h.blocks[..|h.blocks| - 1]);
             && o + b.words + 2 == |words| && o <= |h.words| && words[..o] == h.words[..o]
             && words[o] == Header(b) && words[o + b.words + 1] == Footer(b)
    ensures Searchable(Heap(words, h.blocks[..|h.blocks| - 1] + [b]))
  {
    hide Tiles, Span, Header, Footer;
    var last := |h.blocks| - 1;
    var front := h.blocks[..last];
    assert h == Heap(h.words, front + [h.blocks[last]]);
    LastTiles(front, h.blocks[last], b, h.words, words);
    assert Shape(front + [b]) by {
      assert forall k :: 0 <= k < last ==> (front + [b])[k] == h.blocks[k];
    }
  }

  /** One round of growth: the last block gets a page, and its tags are rewritten. */
  lemma GrowRound(h0: Heap, h: Heap, h': Heap, n: nat, page: nat)
    requires page > 0 && GrownFrom(h0, h, n, page) && FirstFit(h.blocks, n) == |h.blocks| && h.blocks != []
    requires var last := |h.blocks| - 1;
             var b := Block(h.blocks[last].words + page, false);
             var o := Span(h.blocks[..last]);
             && h'.blocks == h.blocks[..last] + [b]
             && |h'.words| == |h.words| + page && o + b.words + 2 == |h'.words|
             && o <= |h.words| && h'.words[..o] == h.words[..o]
             && h'.words[o] == Header(b) && h'.words[o + b.words + 1] == Footer(b)
    ensures GrownFrom(h0, h', n, page)
  {
    hide Tiles, Span, Header, Footer, Shape, Searchable;
    var last := |h.blocks| - 1;
    GrowSearchable(h, h'.blocks[last], h'.words);
    assert h'.blocks[..last] == h.blocks[..last];
    LastUnfit(h, n);
  }

  lemma LastUnfit(h: Heap, n: nat)
    requires Searchable(h) && FirstFit(h.blocks, n) == |h.blocks|
    ensures h.blocks != [] && !h.blocks[|h.blocks| - 1].live && h.blocks[|h.blocks| - 1].words < n + 2
  {
  }

  /** Growing the last block makes no earlier block fit. */
  lemma GrowFit(bs: seq<Block>, b: Block, n: nat)
    requires bs != [] && FirstFit(bs, n) == |bs|
    ensures FirstFit(bs[..|bs| - 1] + [b], n) >= |bs| - 1
  {
    var bs' := bs[..|bs| - 1] + [b];
    assert forall k :: 0 <= k < |bs| - 1 ==> bs'[k] == bs[k];
  }

  /** A new page exposed above `h` and tagged into the last block continues the search. */
  lemma GrowByPage(h0: Heap, h: Heap, w: seq<nat>, n: nat, page: nat)
    requires page > 0 && GrownFrom(h0, h, n, page) && FirstFit(h.blocks, n) == |h.blocks|
    requires |w| == |h.words| + page && w[..|h.words|] == h.words
    ensures h.blocks != []
    ensures var last := |h.blocks| - 1;
            var b := Block(h.blocks[last].words + page, false);
            var o := Span(h.blocks[..last]);
            && o + b.words + 2 == |w|
            && var h' := Heap(Tagged(w, o, b), h.blocks[..last] + [b]);
               GrownFrom(h0, h', n, page) && FirstFit(h'.blocks, n) >= last
  {
    var last := |h.blocks| - 1;
    var b := Block(h.blocks[last].words + page, false);
    var o := Span(h.blocks[..last]);
    WholeSpan(h);
    RegrownPrefix(h.words, w, o, b);
    GrowRound(h0, h, Heap(Tagged(w, o, b), h.blocks[..last] + [b]), n, page);
    GrowFit(h.blocks, b, n);
  }

  /** `w` with the block of `g` words at `lo` cut into a live and a free half. */
  function Cleft(w: seq<nat>, lo: nat, n: nat, g: nat): (w': seq<nat>)
    requires g >= n + 2 && lo + g + 2 <= |w|
    ensures |w'| == |w|
  {
    Tagged(Tagged(w, lo + n + 2, Block(g - n - 2, false)), lo, Block(n, true))
  }

  lemma CleftPart(w: seq<nat>, lo: nat, n: nat, g: nat)
    requires g >= n + 2 && lo + g + 2 <= |w|
    ensures var part := Cleft(w, lo, n, g)[lo..lo + g + 2];
            Tiles(Halves(n, g), part) && Cleft(w, lo, n, g) == w[..lo] + part + w[lo + g + 2..]
  {
    HalvesTiles(n, g, Cleft(w, lo, n, g)[lo..lo + g + 2]);
  }

  lemma AllocatesBy(h: Heap, n: nat, page: nat, part: seq<nat>, words: seq<nat>)
    requires h.blocks != [] && page > 0
    requires var i := Chosen(h.blocks, n);
             && Span(h.blocks[..i]) <= Span(h.blocks[..i + 1]) <= |h.words|
             && words == Patch(h.words, Span(h.blocks[..i]), Span(h.blocks[..i + 1]), part)
    requires Tiles(Halves(n, ServingSize(h.blocks, n, page)), part)
    ensures Allocates(h, n, page, Heap(words, Allocated(h.blocks, n, page)))
  {
  }

  /** Splitting the block found in a grown heap is one allocation on the original heap. */
  lemma FoundAllocates(h0: Heap, h: Heap, n: nat, page: nat, i: nat)
    requires page > 0 && GrownFrom(h0, h, n, page)
    requires i < |h.blocks| && FirstFit(h.blocks, n) == i
    ensures h.blocks[i].words >= n + 2 && Span(h.blocks[..i]) + h.blocks[i].words + 2 <= |h.words|
    ensures i == Chosen(h0.blocks, n) && h.blocks[..i] == h0.blocks[..i]
    ensures Allocates(h0, n, page,
                      Heap(Cleft(h.words, Span(h.blocks[..i]), n, h.blocks[i].words), Allocated(h0.blocks, n, page)))
  {
    var g, lo := h.blocks[i].words, Span(h.blocks[..i]);
    SearchableHeader(h0, h, n, page, i);
    CleftPart(h.words, lo, n, g);
    var words := Cleft(h.words, lo, n, g);
    var part := words[lo..lo + g + 2];
    if h != h0 {
      GrownChosen(h0, h, n, page, i);
      WholeSpan(h);
      WholeSpan(h0);
      assert words == Patch(h0.words, lo, |h0.words|, part);
    }
    AllocatesBy(h0, n, page, part, words);
  }

  /** When the search has to grow past the zone, the request as a whole does not fit. */
  lemma GrowthNeeded(h0: Heap, h: Heap, n: nat, page: nat)
    requires page > 0 && GrownFrom(h0, h, n, page) && FirstFit(h.blocks, n) == |h.blocks|
    ensures Span(Allocated(h0.blocks, n, page)) >= |h.words| + page
  {
    ChosenBlock(h0.blocks, n, page);
    WholeSpan(h);
    WholeSpan(h0);
  }

  /** Serving a request leaves a well-formed heap, also from the footless first block. */
  lemma Served(h0: Heap, h: Heap, n: nat, page: nat, h': Heap)
    requires page > 0 && GrownFrom(h0, h, n, page) && Allocates(h0, n, page, h')
    ensures Good(h') && h'.blocks == Allocated(h0.blocks, n, page)
    ensures |h'.words| == Span(h'.blocks)
    ensures Good(h0) ==> Step(page, h0, HeapBlocks.Allocate(n), h')
  {
    if Tiles(h0.blocks, h0.words) {
      AllocateKeeps(page, h0, n, h');
    } else {
      var g := ServingSize(h0.blocks, n, page);
      AllocatedShape(h0.blocks, n, page);
      WholeSpan(h0);
      var part :| Tiles(Halves(n, g), part) && h'.words == Patch(h0.words, 0, |h0.words|, part);
      assert h'.words == part && h'.blocks == Halves(n, g);
      TilesSpan(Halves(n, g), part);
    }
  }

  lemma WholeSpan(h: Heap)
    requires Searchable(h)
    ensures var last := |h.blocks| - 1;
            && Span(h.blocks[..last + 1]) == |h.words|
            && Span(h.blocks[..last]) + h.blocks[last].words + 2 == |h.words|
  {
    SearchableHeader(h, h, 0, 1, |h.blocks| - 1);
  }

  lemma GrownChosen(h0: Heap, h: Heap, n: nat, page: nat, i: nat)
    requires page > 0 && GrownFrom(h0, h, n, page) && h != h0
    requires i < |h.blocks| && FirstFit(h.blocks, n) == i
    ensures i == |h0.blocks| - 1 == Chosen(h0.blocks, n)
    ensures ServingSize(h0.blocks, n, page) == h.blocks[i].words
    ensures h.blocks[..i] == h0.blocks[..i]
  {
    var last := |h0.blocks| - 1;
    assert forall k :: 0 <= k < last ==> h.blocks[..last][k] == h.blocks[k] && h0.blocks[..last][k] == h0.blocks[k];
    assert i == last;
  }

  /** The released block together with a free predecessor, before its successor is looked at. */
  ghost function MergedLeft(bs: seq<Block>, i: nat): Block
    requires i < |bs|
  {
    if PrevFree(bs, i) then Block(bs[i - 1].words + 2 + bs[i].words, false) else Block(bs[i].words, false)
  }

  lemma MergeSpans(bs: seq<Block>, i: nat)
    requires i < |bs|
    ensures Span(bs[..MergeLo(bs, i)]) + MergedLeft(bs, i).words + 2 == Span(bs[..i + 1])
    ensures Span(bs[..MergeLo(bs, i)]) + Merged(bs, i).words + 2 == Span(bs[..MergeHi(bs, i)]) <= Span(bs)
    ensures Merged(bs, i) == if NextFree(bs, i) then Block(MergedLeft(bs, i).words + 2 + bs[i + 1].words, false)
                             else MergedLeft(bs, i)
  {
    hide Span;
    SpanAround(bs, i);
    if PrevFree(bs, i) {
      SpanAround(bs, i - 1);
    }
    if NextFree(bs, i) {
      SpanAround(bs, i + 1);
    }
    var lo, hi := MergeLo(bs, i), MergeHi(bs, i);
    SpanPart(bs, lo, hi);
    assert Span(bs[..hi]) == Span(bs[..lo]) + Merged(bs, i).words + 2;
    assert Span(bs[..lo]) + MergedLeft(bs, i).words + 2 == Span(bs[..i + 1]);
  }

  /** A live block always has a successor, so reading the next header stays below top. */
  lemma LiveNotLast(h: Heap, i: nat)
    requires Good(h) && i < |h.blocks| && h.blocks[i].live
    ensures i + 1 < |h.blocks| && Span(h.blocks[..i + 1]) < |h.words|
  {
    TagsAt(h.blocks, h.words, i + 1);
  }

  /** The header of the successor is out of reach of the tags written for the release. */
  lemma Successor(h: Heap, i: nat)
    requires Good(h) && i < |h.blocks| && h.blocks[i].live
    ensures i + 1 < |h.blocks| && Span(h.blocks[..i + 1]) < |h.words|
    ensures var bs, lo := h.blocks, Span(h.blocks[..MergeLo(h.blocks, i)]);
            && lo + MergedLeft(bs, i).words + 2 == Span(bs[..i + 1])
            && Tagged(h.words, lo, MergedLeft(bs, i))[lo] == Header(MergedLeft(bs, i))
            && Tagged(h.words, lo, MergedLeft(bs, i))[Span(bs[..i + 1])] == Header(bs[i + 1])
  {
    LiveNotLast(h, i);
    MergeSpans(h.blocks, i);
    TagsAt(h.blocks, h.words, i + 1);
  }

  lemma ReleasesBy(h: Heap, i: nat, part: seq<nat>, words: seq<nat>)
    requires Good(h) && i < |h.blocks|
    requires var lo, hi := Span(h.blocks[..MergeLo(h.blocks, i)]), Span(h.blocks[..MergeHi(h.blocks, i)]);
             lo <= hi <= |h.words| && words == Patch(h.words, lo, hi, part)
    requires Tiles([Merged(h.blocks, i)], part)
    ensures Releases(h, i, Heap(words, Released(h.blocks, i)))
  {
  }

  /** Tagging a block, after perhaps tagging a smaller one at the same place. */
  lemma TaggedPart(w: seq<nat>, lo: nat, a: Block, b: Block, twice: bool)
    requires lo + a.words + 2 <= lo + b.words + 2 <= |w|
    requires !twice ==> a == b
    ensures var w' := if twice then Tagged(Tagged(w, lo, a), lo, b) else Tagged(w, lo, a);
            var hi := lo + b.words + 2;
            Tiles([b], w'[lo..hi]) && w' == Patch(w, lo, hi, w'[lo..hi])
  {
    var w' := if twice then Tagged(Tagged(w, lo, a), lo, b) else Tagged(w, lo, a);
    OneTiles(b, w'[lo..lo + b.words + 2]);
  }

  /** Words a release leaves in place of the merged blocks. */
  lemma RetaggedReleases(h: Heap, i: nat)
    requires Good(h) && i < |h.blocks|
    ensures var bs, lo := h.blocks, Span(h.blocks[..MergeLo(h.blocks, i)]);
            && lo + MergedLeft(bs, i).words + 2 <= |h.words| && lo + Merged(bs, i).words + 2 <= |h.words|
            && var w := Tagged(h.words, lo, MergedLeft(bs, i));
               var w' := if NextFree(bs, i) then Tagged(w, lo, Merged(bs, i)) else w;
               Releases(h, i, Heap(w', Released(bs, i)))
  {
    hide Tiles, Shape, Tagged, Released, Releases, Span, MergeLo, MergeHi, Merged, MergedLeft, NextFree;
    var bs := h.blocks;
    MergeSpans(bs, i);
    var lo, hi := Span(bs[..MergeLo(bs, i)]), Span(bs[..MergeHi(bs, i)]);
    TaggedPart(h.words, lo, MergedLeft(bs, i), Merged(bs, i), NextFree(bs, i));
    var w := Tagged(h.words, lo, MergedLeft(bs, i));
    var w' := if NextFree(bs, i) then Tagged(w, lo, Merged(bs, i)) else w;
    ReleasesBy(h, i, w'[lo..hi], w');
  }

  lemma ReleaseIsStep(h: Heap, i: nat, h': Heap, page: nat)
    requires Good(h) && page > 0 && i < |h.blocks| && h.blocks[i].live && Releases(h, i, h')
    ensures Good(h') && Step(page, h, Release(Span(h.blocks[..i]) + 1), h')
    ensures |h'.words| == Span(h'.blocks)
  {
    hide Tiles, Span, Releases;
    ReleaseKeeps(h, i, h');
    assert LiveAt(h.blocks, i, Span(h.blocks[..i]) + 1);
  }
}
