/** The kernel heap: first fit over boundary tags, growing at the top of its zone. */
module CoreHeapModel {
  import opened HeapBlocks
  import opened HeapStores
  import opened HeapTags
  import BreakRule

  // Machine words are 4 bytes (the x86 build); literals keep the tag arithmetic linear.

  /** `Escapes(a)`: the zone is exhausted; the first store past its break goes to `a`. */
  datatype Outcome = Payload(address: nat) | Escapes(address: nat)

  function AlignUp(x: nat): nat {
    AlignDown(x + 3)
  }

  function BlockSize(x: nat): nat {
    x + 8
  }

  /** Words a request of `bytes` bytes asks for. */
  function RequestWords(bytes: nat): nat {
    AlignUp(bytes) / 4
  }

  // ----- sizes as the machine computes them, in 32 bits

  function RoundedSize(bytes: nat): nat {
    AlignDown((bytes + 3) % 0x1_0000_0000)
  }

  function WholeSize(size: nat): nat {
    (size + 8) % 0x1_0000_0000
  }

  /** Rounding a request up and adding room for the tags is right exactly for requests that leave
    twelve bytes of the address space. */
  lemma SizeIsExact(bytes: nat)
    requires bytes < 0x1_0000_0000
    ensures RoundedSize(bytes) == AlignUp(bytes) && WholeSize(RoundedSize(bytes)) == BlockSize(AlignUp(bytes))
            <==> bytes + 12 <= 0x1_0000_0000
  {
    hide AlignDown;
    RequestSize(bytes);
    if bytes + 3 < 0x1_0000_0000 {
      Unwrapped(bytes + 3);
      assert RoundedSize(bytes) == AlignUp(bytes);
      if bytes + 12 <= 0x1_0000_0000 {
        Unwrapped(AlignUp(bytes) + 8);
      }
    }
  }

  lemma Unwrapped(x: nat)
    requires x < 0x1_0000_0000
    ensures x % 0x1_0000_0000 == x
  {
  }

  /** The largest requests are rounded to nothing, and would be served by an empty payload. */
  lemma SizeMisses()
    ensures RoundedSize(0xFFFF_FFFE) == 0 && WholeSize(0) == 8
  {
  }

  lemma RequestSize(bytes: nat)
    ensures AlignUp(bytes) == 4 * RequestWords(bytes) && bytes <= AlignUp(bytes) < bytes + 4
  {
  }

  /** In a zone of a single page the first request is served exactly up to 4080 bytes.  From 4081 on
    the refused `increase` is not noticed, and the search goes past the end of the zone. */
  lemma OnePageZone(bytes: nat)
    ensures Span(Allocated(FirstBlocks(1024), RequestWords(bytes), 1024)) <= 1024 <==> bytes <= 4080
  {
    var n := RequestWords(bytes);
    RequestSize(bytes);
    SpanOne(FirstBlocks(1024)[0]);
    ChosenBlock(FirstBlocks(1024), n, 1024);
    assert n + 2 <= 1022 <==> bytes <= 4080;
  }

  // ----- the heap object

  class CoreHeap {
    const base: nat
    const end: nat
    const pageSize: nat
    const mem: array<nat>
    var brk: nat

    // the same bounds in words, and the block list
    ghost const pageWords: nat
    ghost const zoneWords: nat
    ghost var topWords: nat
    ghost var blocks: seq<Block>

    /** The words when the present operation began, and every page it took and every word it stored
      since, in order. */
    ghost var start: seq<nat>
    ghost var log: seq<Access>

    ghost predicate Layout()
      reads this
    {
      && 0 < base && base % 4 == 0 && end + pageSize < 0x1_0000_0000
      && pageWords >= 2 && topWords <= zoneWords == mem.Length
      && pageSize == 4 * pageWords && end == base + 4 * zoneWords && brk == base + 4 * topWords
    }

    ghost function Heap(): Heap
      requires Layout()
      reads this, mem
    {
      HeapBlocks.Heap(mem[..topWords], blocks)
    }

    /** The operation has done to memory what its log says, and nothing else. */
    ghost predicate Recorded()
      requires Layout()
      reads this, mem
    {
      Carried(start, log, mem[..topWords], pageWords)
    }

    /** Nothing is allocated before the first page, and afterwards the heap is well formed. */
    ghost predicate Valid()
      reads this, mem
    {
      Layout() && if topWords == 0 then blocks == [] else Good(Heap())
    }

    /** The blocks a search starts from. */
    ghost function StartBlocks(): seq<Block>
      requires Layout()
      reads this
    {
      if topWords == 0 then FirstBlocks(pageWords) else blocks
    }

    constructor (base: nat, end: nat, pageSize: nat, mem: array<nat>)
      requires 0 < base <= end && base % 4 == 0 && (end - base) % 4 == 0
      requires pageSize % 4 == 0 && 8 <= pageSize && end + pageSize < 0x1_0000_0000
      requires mem.Length == (end - base) / 4
      ensures Valid() && brk == base
      ensures this.base == base && this.end == end && this.pageSize == pageSize && this.mem == mem
    {
      this.base, this.end, this.pageSize, this.mem := base, end, pageSize, mem;
      pageWords, zoneWords := pageSize / 4, (end - base) / 4;
      brk, topWords, blocks, start, log := base, 0, [], [], [];
    }

    /** Index of the word at address `a`; every access of the heap goes through here. */
    function WordAt(a: nat): nat
      requires base <= a
    {
      (a - base) / 4
    }

    /** The word at offset `k` sits at an aligned address. */
    lemma Place(k: nat)
      requires Layout()
      ensures (base + 4 * k) % 4 == 0 && WordAt(base + 4 * k) == k
    {
    }

    /** Reads the word at `a`, which must lie between base and top. */
    function Load(a: nat): nat
      requires Layout() && base <= a < brk && a % 4 == 0
      reads this, mem
    {
      mem[WordAt(a)]
    }

    /** Writes the word at `a`, which must lie between base and top. */
    method Store(a: nat, v: nat)
      requires Layout() && Recorded() && base <= a < brk && a % 4 == 0
      modifies mem, this`log
      ensures Recorded()
      ensures mem[..topWords] == old(mem[..topWords])[WordAt(a) := v]
      ensures log == old(log) + [Poke(WordAt(a), v)]
    {
      ThenPoke(start, log, mem[..topWords], WordAt(a), v, pageWords);
      mem[WordAt(a)] := v;
      log := log + [Poke(WordAt(a), v)];
    }

    method Increase() returns (grown: bool)
      requires Layout() && Recorded()
      modifies this`brk, this`topWords, this`log
      ensures Layout() && Recorded()
      ensures log == old(log) + if grown then [Page] else []
      ensures brk == BreakRule.Raised(old(brk), end, pageSize, 1)
      ensures grown <==> BreakRule.Fits(old(brk), end, pageSize, 1)
      ensures topWords == if grown then old(topWords) + pageWords else old(topWords)
      ensures !grown ==> topWords + pageWords > zoneWords
    {
      BreakRule.AboveIsExact(brk, end, pageSize);
      grown := !BreakRule.TestsAbove(brk, end, pageSize);
      if grown {
        ThenPage(start, log, mem[..topWords], mem[..topWords + pageWords], pageWords);
        brk := brk + pageSize;
        topWords := topWords + pageWords;
        log := log + [Page];
      }
    }

    /** Writes header and footer of the block `b` at `p`, word offset `o`. */
    method BlockUpdate(p: nat, size: nat, flags: nat, ghost o: nat, ghost b: Block)
      requires Layout() && Recorded() && p == base + 4 * o && o + b.words + 2 <= topWords
      requires size == 4 * b.words && flags == if b.live then 1 else 0
      modifies mem, this`log
      ensures Recorded()
      ensures mem[..topWords] == Tagged(old(mem[..topWords]), o, b)
      ensures log == old(log) + TagMoves(o, b)
    {
      Place(o);
      Place(o + b.words + 1);
      Store(p, size + flags);
      var footer := p + 4 + AlignDown(Load(p));
      Store(footer, size + flags + 2);
    }

    /** Cuts the free block at `ptr` in two; the lower half is handed out. */
    method SplitBlock(ptr: nat, size: nat, ghost h0: Heap, ghost i: nat, ghost n: nat)
      requires Layout() && Recorded() && i < |blocks|
      requires size == 4 * n && ptr == base + 4 * Span(blocks[..i])
      requires GrownFrom(h0, Heap(), n, pageWords) && FirstFit(blocks, n) == i
      modifies mem, this`blocks, this`log
      ensures Recorded()
      ensures log == old(log) + old(AllocateMoves(blocks, n, pageWords))
      ensures Allocates(h0, n, pageWords, Heap())
      ensures ptr + 4 == base + 4 * PayloadOffset(h0.blocks, n)
      ensures ptr + 4 + size < brk
    {
      hide Searchable, GrownFrom, Tiles, Allocates, FirstFit, Shape, Header, Footer, AlignDown, IsPresent;
      hide Span, Carried;
      ghost var h, o, g := Heap(), Span(blocks[..i]), blocks[i].words;
      SearchableHeader(h0, h, n, pageWords, i);
      TagOf(blocks[i]);
      Place(o);
      FoundAllocates(h0, h, n, pageWords, i);
      var rest := ptr + BlockSize(size);
      var restSize := AlignDown(Load(ptr)) - BlockSize(size);
      BlockUpdate(rest, restSize, 0, o + n + 2, Block(g - n - 2, false));
      BlockUpdate(ptr, size, 1, o, Block(n, true));
      assert log == old(log) + CleftMoves(o, n, g);
      blocks := Allocated(h0.blocks, n, pageWords);
    }

    /** Rewrites the tags of the last block after a page was added above it. */
    method RetagLast(ptr: nat, size: nat, ghost h0: Heap, ghost h: Heap, ghost i: nat, ghost n: nat)
      requires Layout() && Recorded() && i < |h.blocks| && i == |h.blocks| - 1
      requires GrownFrom(h0, h, n, pageWords) && FirstFit(h.blocks, n) == |h.blocks|
      requires ptr == base + 4 * Span(h.blocks[..i]) && size == 4 * (h.blocks[i].words + pageWords)
      requires topWords == |h.words| + pageWords && mem[..topWords][..|h.words|] == h.words
      modifies mem, this`blocks, this`log
      ensures Recorded()
      ensures log == old(log) + TagMoves(Span(h.blocks[..i]), Block(h.blocks[i].words + pageWords, false))
      ensures blocks == h.blocks[..i] + [Block(h.blocks[i].words + pageWords, false)]
      ensures GrownFrom(h0, Heap(), n, pageWords)
      ensures i < |blocks| && blocks[..i] == h.blocks[..i] && FirstFit(blocks, n) >= i
    {
      hide Searchable, GrownFrom, Tiles, Allocates, FirstFit, Shape, Header, Footer;
      ghost var b := Block(h.blocks[i].words + pageWords, false);
      GrowByPage(h0, h, mem[..topWords], n, pageWords);
      BlockUpdate(ptr, size, 0, Span(h.blocks[..i]), b);
      blocks := h.blocks[..i] + [b];
    }

    /** Adds a page to the last block, if the zone has one left. */
    method GrowBlock(ptr: nat, ghost h0: Heap, ghost i: nat, ghost n: nat) returns (grown: bool)
      requires Layout() && Recorded() && i < |blocks| && i == |blocks| - 1
      requires ptr == base + 4 * Span(blocks[..i])
      requires GrownFrom(h0, Heap(), n, pageWords) && FirstFit(blocks, n) == |blocks|
      modifies mem, this`blocks, this`brk, this`topWords, this`log
      ensures Layout() && Recorded()
      ensures grown ==>
                && blocks != []
                && log + AllocateMoves(blocks, n, pageWords) == old(log) + old(AllocateMoves(blocks, n, pageWords))
      ensures !grown ==> brk == old(brk) && topWords == old(topWords) && brk + pageSize > end
      ensures !grown ==> Span(Allocated(h0.blocks, n, pageWords)) > zoneWords
      ensures grown ==>
                && topWords == old(topWords) + pageWords
                && GrownFrom(h0, Heap(), n, pageWords)
                && i < |blocks| && blocks[..i] == old(blocks)[..i] && FirstFit(blocks, n) >= i
    {
      hide Span, AllocateMoves, TagMoves, Carried;
      hide Searchable, GrownFrom, Tiles, Allocates, FirstFit, Shape, Header, Footer, AlignDown, IsPresent;
      ghost var h := Heap();
      SearchableHeader(h0, h, n, pageWords, i);
      TagOf(blocks[i]);
      Place(Span(blocks[..i]));
      GrowthNeeded(h0, h, n, pageWords);
      var tag := Load(ptr);
      grown := Increase();
      if grown {
        RetagLast(ptr, AlignDown(tag) + pageSize, h0, h, i, n);
        LastUnfits(h0, h, n, pageWords);
        MovesGrow(h.blocks, n, pageWords);
      } else {
        // the source goes on as if the page were there: its header store still lands
        Store(ptr, AlignDown(tag) + pageSize);
      }
    }

    /** `init`: takes the first page and writes the header of its one free block. */
    method Init() returns (ok: bool)
      requires Valid() && topWords == 0 && Recorded()
      modifies this`brk, this`topWords, this`blocks, this`log, mem
      ensures Layout() && Recorded()
      ensures ok ==> log == old(log) + [Page, Poke(0, Header(FirstBlocks(pageWords)[0]))]
      ensures !ok ==> topWords == 0 && pageWords > zoneWords
      ensures ok ==>
                && topWords == pageWords && blocks == FirstBlocks(pageWords)
                && forall n :: GrownFrom(Heap(), Heap(), n, pageWords)
    {
      ok := Increase();
      if ok {
        Store(base, pageSize - 8);
        blocks := FirstBlocks(pageWords);
        FirstHeader(pageWords);
        forall n {
          SearchBegins(Heap(), n, pageWords);
        }
      }
    }

    /** `allocate`: first fit, growing by single pages while nothing fits.  It fails to serve
      a request exactly when serving it takes more words than the zone has. */
    method Allocate(bytes: nat) returns (r: Outcome)
      requires Valid() && bytes + 12 <= 0x1_0000_0000
      modifies this`brk, this`topWords, this`blocks, this`start, this`log, mem
      ensures Layout() && Recorded() && start == old(mem[..topWords])
      ensures r.Payload? ==>
                log == if old(topWords) == 0 then FirstMoves(RequestWords(bytes), pageWords)
                       else AllocateMoves(old(blocks), RequestWords(bytes), pageWords)
      ensures r.Payload? <==>
                Span(Allocated(old(StartBlocks()), RequestWords(bytes), pageWords)) <= zoneWords
      ensures r.Payload? ==>
                && Valid() && topWords > 0
                && blocks == Allocated(old(StartBlocks()), RequestWords(bytes), pageWords)
                && r.address == base + 4 * PayloadOffset(old(StartBlocks()), RequestWords(bytes))
                && r.address % 4 == 0 && base < r.address && r.address + bytes < brk
      ensures bytes <= 4 * RequestWords(bytes) < bytes + 4
      ensures r.Payload? && old(topWords) > 0 ==>
                Step(pageWords, old(Heap()), HeapBlocks.Allocate(RequestWords(bytes)), Heap())
      ensures r.Escapes? ==>
                brk + pageSize > end && r.address == if brk == base then base else brk + pageSize - 4
    {
      hide Searchable, GrownFrom, Tiles, Allocates, FirstFit, Shape, Header, Footer, AlignDown, IsPresent;
      hide Good, Span, Step, Allocated, Chosen, PayloadOffset, Carried;
      RequestSize(bytes);
      r := Escapes(brk);
      start, log := mem[..topWords], [];
      NoneCarried(start, pageWords);
      ghost var n := RequestWords(bytes);
      if base == brk {
        var ok := Init();
        if !ok {
          FirstNeedsPage(n, pageWords);
          return Escapes(base);
        }
      } else {
        SearchBegins(Heap(), n, pageWords);
      }
      SizeIsExact(bytes);
      var size := RoundedSize(bytes);
      ghost var h0 := Heap();
      r := Search(size, h0, n);
      if r.Payload? {
        Place(PayloadOffset(h0.blocks, n));
      }
    }

    /** The search of `allocate`, on the heap `h0`, for a payload of `size` bytes. */
    method Search(size: nat, ghost h0: Heap, ghost n: nat) returns (r: Outcome)
      requires Layout() && Recorded() && topWords > 0 && size == 4 * n && size + 8 < 0x1_0000_0000
      requires h0 == Heap() && GrownFrom(h0, Heap(), n, pageWords) && blocks != []
      modifies this`brk, this`topWords, this`blocks, this`log, mem
      ensures Layout() && Recorded() && topWords > 0
      ensures r.Payload? ==> log == old(log) + AllocateMoves(h0.blocks, n, pageWords)
      ensures r.Payload? <==> Span(Allocated(h0.blocks, n, pageWords)) <= zoneWords
      ensures r.Payload? ==>
                && Good(Heap()) && blocks == Allocated(h0.blocks, n, pageWords)
                && r.address == base + 4 * PayloadOffset(h0.blocks, n) && base < r.address && r.address + size < brk
                && (Good(h0) ==> Step(pageWords, h0, HeapBlocks.Allocate(n), Heap()))
      ensures r.Escapes? ==> brk + pageSize > end && r.address == brk + pageSize - 4
    {
      hide Searchable, GrownFrom, Tiles, Allocates, FirstFit, Shape, Header, Footer, AlignDown, IsPresent;
      hide Good, Span, Step, Allocated, Chosen, PayloadOffset, AllocateMoves, Carried;
      r := Escapes(brk);
      ghost var i := 0;
      SpanNone(blocks);
      Unwrapped(size + 8);
      var ptr := base;
      while ptr < brk
        invariant Layout() && Recorded() && topWords > 0
        invariant GrownFrom(h0, Heap(), n, pageWords)
        invariant i < |blocks| && ptr == base + 4 * Span(blocks[..i])
        invariant FirstFit(blocks, n) >= i
        invariant log + AllocateMoves(blocks, n, pageWords) == old(log) + AllocateMoves(h0.blocks, n, pageWords)
        decreases zoneWords - topWords, |blocks| - i
      {
        SearchableHeader(h0, Heap(), n, pageWords, i);
        TagOf(blocks[i]);
        FitTest(blocks, n, i);
        Place(Span(blocks[..i]));
        var tag := Load(ptr);
        if !IsPresent(tag) && AlignDown(tag) >= WholeSize(size) {
          ghost var h := Heap();
          SplitBlock(ptr, size, h0, i, n);
          Served(h0, h, n, pageWords, Heap());
          return Payload(ptr + 4);
        }
        var next := ptr + BlockSize(AlignDown(tag));
        if next >= brk {
          var grown := GrowBlock(ptr, h0, i, n);
          if !grown {
            return Escapes(ptr + 4 + AlignDown(tag) + pageSize);
          }
        } else {
          ptr := next;
          i := i + 1;
        }
      }
      SearchableHeader(h0, Heap(), n, pageWords, i);
      assert false;
    }

    /** Block `i` lies at `ptr`, and the words around it are its neighbours' tags. */
    lemma Neighbours(i: nat)
      requires Layout() && Good(Heap()) && i < |blocks|
      ensures Span(blocks[..i + 1]) == Span(blocks[..i]) + blocks[i].words + 2 <= topWords
      ensures mem[Span(blocks[..i])] == Header(blocks[i])
      ensures 0 < i ==> Span(blocks[..i]) == Span(blocks[..i - 1]) + blocks[i - 1].words + 2
                        && mem[Span(blocks[..i - 1])] == Header(blocks[i - 1])
                        && mem[Span(blocks[..i]) - 1] == Footer(blocks[i - 1])
      ensures i + 1 < |blocks| ==> Span(blocks[..i + 1]) + blocks[i + 1].words + 2 == Span(blocks[..i + 2]) <= topWords
                                   && mem[Span(blocks[..i + 1])] == Header(blocks[i + 1])
    {
      hide Span, Tiles, Header, Footer, Shape;
      var w := Heap().words;
      TagsAt(blocks, w, i);
      if 0 < i {
        TagsAt(blocks, w, i - 1);
      }
      if i + 1 < |blocks| {
        TagsAt(blocks, w, i + 1);
      }
    }

    /** Merges the block being released, at offset `Span(blocks[..i])`, with a free predecessor;
      returns where the free block now starts. */
    method MergePrevious(ptr: nat, size: nat, ghost i: nat) returns (start: nat)
      requires Layout() && Recorded() && Good(Heap()) && i < |blocks|
      requires ptr == base + 4 * Span(blocks[..i]) && size == 4 * blocks[i].words
      modifies mem, this`log
      ensures Recorded()
      ensures log == old(log) + TagMoves(Span(blocks[..MergeLo(blocks, i)]), MergedLeft(blocks, i))
      ensures var lo, b := Span(blocks[..MergeLo(blocks, i)]), MergedLeft(blocks, i);
              && start == base + 4 * lo && lo + b.words + 2 == Span(blocks[..i + 1]) <= topWords
              && mem[..topWords] == Tagged(old(mem[..topWords]), lo, b)
    {
      hide Tiles, Shape, Header, Footer, AlignDown, IsPresent, Good, Span, Merged;
      ghost var o, b := Span(blocks[..i]), MergedLeft(blocks, i);
      Neighbours(i);
      MergeSpans(blocks, i);
      SpanNone(blocks);
      var prevFooter := ptr - 4;
      if 0 < i {
        Place(o - 1);
        Place(Span(blocks[..i - 1]));
        TagOf(blocks[i - 1]);
      }
      if prevFooter > base && !IsPresent(Load(prevFooter)) {
        start := prevFooter - 4 - AlignDown(Load(prevFooter));
        BlockUpdate(start, BlockSize(AlignDown(Load(start))) + size, 0, Span(blocks[..i - 1]), b);
      } else {
        start := ptr;
        BlockUpdate(start, size, 0, o, b);
      }
    }

    /** Merges the free block at `ptr` with a free successor. */
    method MergeNext(ptr: nat, ghost h: Heap, ghost i: nat)
      requires Layout() && Recorded() && Good(h) && i < |h.blocks| && h.blocks[i].live && topWords == |h.words|
      requires var lo, b := Span(h.blocks[..MergeLo(h.blocks, i)]), MergedLeft(h.blocks, i);
               && ptr == base + 4 * lo && lo + b.words + 2 <= topWords
               && mem[..topWords] == Tagged(h.words, lo, b)
      modifies mem, this`log
      ensures Recorded()
      ensures log == old(log) + if NextFree(h.blocks, i) then
                                  TagMoves(Span(h.blocks[..MergeLo(h.blocks, i)]), Merged(h.blocks, i))
                                else []
      ensures Releases(h, i, HeapBlocks.Heap(mem[..topWords], Released(h.blocks, i)))
    {
      hide Tiles, Shape, Header, Footer, AlignDown, IsPresent, Span, Good, Released, Releases, Merged, MergedLeft;
      ghost var bs, lo := h.blocks, Span(h.blocks[..MergeLo(h.blocks, i)]);
      LiveNotLast(h, i);
      MergeSpans(bs, i);
      Successor(h, i);
      Place(lo);
      Place(Span(bs[..i + 1]));
      TagOf(MergedLeft(bs, i));
      TagOf(bs[i + 1]);
      RetaggedReleases(h, i);
      var next := ptr + BlockSize(AlignDown(Load(ptr)));
      if next <= brk && !IsPresent(Load(next)) {
        var newSize := AlignDown(Load(ptr)) + BlockSize(AlignDown(Load(next)));
        BlockUpdate(ptr, newSize, 0, lo, Merged(bs, i));
      }
    }

    /** Frees the live block at `ptr`. */
    method MergeBlock(ptr: nat, size: nat, ghost i: nat)
      requires Valid() && Recorded() && topWords > 0 && i < |blocks| && blocks[i].live
      requires ptr == base + 4 * Span(blocks[..i]) && size == 4 * blocks[i].words
      modifies this`blocks, this`log, mem
      ensures Valid() && Recorded() && log == old(log) + ReleaseMoves(old(blocks), i)
      ensures Releases(old(Heap()), i, Heap())
      ensures Step(pageWords, old(Heap()), Release(Span(old(blocks)[..i]) + 1), Heap())
    {
      hide Tiles, Shape, Header, Footer, Span, Good, Released, Releases, Merged, MergedLeft;
      hide Contents, MergeLo, MergeHi, TagMoves, NextFree, Step, Carried;
      ghost var h := Heap();
      MergeSpans(blocks, i);
      var start := MergePrevious(ptr, size, i);
      MergeNext(start, h, i);
      blocks := Released(blocks, i);
      ReleaseIsStep(h, i, Heap(), pageWords);
    }

    /** `free`: the block becomes free and absorbs its free neighbours.  A null or misaligned
      pointer and a block that is free already are ignored. */
    method Free(address: nat, ghost i: nat)
      requires Valid()
      requires address != 0 && address % 4 == 0 ==>
                 topWords > 0 && i < |blocks| && address == base + 4 * (Span(blocks[..i]) + 1)
      modifies this`blocks, this`start, this`log, mem
      ensures Valid() && Recorded() && start == old(mem[..topWords])
      ensures log == if address != 0 && address % 4 == 0 && old(blocks)[i].live then ReleaseMoves(old(blocks), i)
                     else []
      ensures address == 0 || address % 4 != 0 || !old(blocks)[i].live ==>
                blocks == old(blocks) && mem[..] == old(mem[..])
      ensures address != 0 && address % 4 == 0 && old(blocks)[i].live ==>
                && Releases(old(Heap()), i, Heap())
                && Step(pageWords, old(Heap()), Release(Span(old(blocks)[..i]) + 1), Heap())
    {
      hide Tiles, Header, Footer, AlignDown, IsPresent, Span, Good, Releases, ReleaseMoves, Step, Carried;
      start, log := mem[..topWords], [];
      NoneCarried(start, pageWords);
      if address == 0 {
        return;
      }
      var ptr := address - 4;
      if ptr % 4 != 0 {
        return;
      }
      Neighbours(i);
      Place(Span(blocks[..i]));
      TagOf(blocks[i]);
      if !IsPresent(Load(ptr)) {
        return;
      }
      MergeBlock(ptr, AlignDown(Load(ptr)), i);
    }
  }
}
