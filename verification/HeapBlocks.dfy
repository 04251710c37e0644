/** The boundary-tag layout of the kernel heap, on values.

  A heap is a sequence of words cut into blocks.  A block of `words` payload words takes
  `words + 2` words: a header, the payload, and a footer.  Header and footer hold the payload
  size in bytes with flag bits in the two low bits (bit 0: present, bit 1: footer).
  The module gives the effect of allocation and release on the block list, the words each
  may rewrite, and what every run of them keeps. */
module HeapBlocks {

  datatype Block = Block(words: nat, live: bool)

  /** `words` is the memory between base and top, `blocks` the blocks it holds. */
  datatype Heap = Heap(words: seq<nat>, blocks: seq<Block>)

  // ----- layout

  function Header(b: Block): nat {
    4 * b.words + if b.live then 1 else 0
  }

  function Footer(b: Block): nat {
    Header(b) + 2
  }

  function Span(bs: seq<Block>): nat {
    if bs == [] then 0 else bs[0].words + 2 + Span(bs[1..])
  }

  /** The words `w` are exactly the blocks `bs`, each with matching header and footer. */
  ghost predicate Tiles(bs: seq<Block>, w: seq<nat>) {
    if bs == [] then w == []
    else
      var d := bs[0].words + 2;
      |w| >= d && w[0] == Header(bs[0]) && w[d - 1] == Footer(bs[0]) && Tiles(bs[1..], w[d..])
  }

  /** What clients see: the contents of each live payload, by its word offset. */
  ghost function Buffers(bs: seq<Block>, o: nat, w: seq<nat>): map<nat, seq<nat>>
    requires |w| == Span(bs)
    decreases bs
  {
    if bs == [] then map[]
    else
      var d := bs[0].words + 2;
      var rest := Buffers(bs[1..], o + d, w[d..]);
      if bs[0].live then rest[o + 1 := w[1..d - 1]] else rest
  }

  /** No two neighbours are both free, and the last block is free. */
  ghost predicate Shape(bs: seq<Block>) {
    && bs != []
    && !bs[|bs| - 1].live
    && forall i :: 0 <= i < |bs| - 1 ==> bs[i].live || bs[i + 1].live
  }

  ghost predicate Good(h: Heap) {
    Shape(h.blocks) && Span(h.blocks) == |h.words| && Tiles(h.blocks, h.words)
  }

  ghost function Contents(h: Heap): map<nat, seq<nat>>
    requires Good(h)
  {
    Buffers(h.blocks, 0, h.words)
  }

  lemma {:induction false} SpanConcat(a: seq<Block>, b: seq<Block>)
    ensures Span(a + b) == Span(a) + Span(b)
  {
    if a == [] {
      assert a + b == b;
    } else {
      assert (a + b)[1..] == a[1..] + b;
      SpanConcat(a[1..], b);
    }
  }

  lemma SpanOne(b: Block)
    ensures Span([b]) == b.words + 2
  {
    assert [b][1..] == [];
  }

  lemma SpanAround(bs: seq<Block>, i: nat)
    requires i < |bs|
    ensures bs == bs[..i] + [bs[i]] + bs[i + 1..]
    ensures Span([bs[i]]) == bs[i].words + 2
    ensures Span(bs[..i + 1]) == Span(bs[..i]) + Span([bs[i]])
    ensures Span(bs) == Span(bs[..i]) + Span([bs[i]]) + Span(bs[i + 1..])
  {
    hide Span;
    Around(bs, i);
    SpanPart(bs, i, i + 1);
    SpanOne(bs[i]);
  }

  lemma Around(bs: seq<Block>, i: nat)
    requires i < |bs|
    ensures bs == bs[..i] + [bs[i]] + bs[i + 1..] && bs[i..i + 1] == [bs[i]]
  {
  }

  lemma SpanPart(bs: seq<Block>, lo: nat, hi: nat)
    requires lo <= hi <= |bs|
    ensures Span(bs) == Span(bs[..lo]) + Span(bs[lo..hi]) + Span(bs[hi..])
    ensures Span(bs[..hi]) == Span(bs[..lo]) + Span(bs[lo..hi])
  {
    assert bs == bs[..hi] + bs[hi..];
    assert bs[..hi] == bs[..lo] + bs[lo..hi];
    SpanConcat(bs[..hi], bs[hi..]);
    SpanConcat(bs[..lo], bs[lo..hi]);
  }

  lemma {:induction false} TilesSpan(bs: seq<Block>, w: seq<nat>)
    requires Tiles(bs, w)
    ensures |w| == Span(bs)
  {
    if bs == [] {
    } else {
      TilesSpan(bs[1..], w[bs[0].words + 2..]);
    }
  }

  lemma {:induction false} TilesConcat(a: seq<Block>, b: seq<Block>, s: seq<nat>, t: seq<nat>)
    requires |s| == Span(a)
    ensures Tiles(a + b, s + t) <==> Tiles(a, s) && Tiles(b, t)
    decreases a
  {
    if a == [] {
      assert a + b == b && s + t == t;
    } else {
      var d := a[0].words + 2;
      assert (a + b)[1..] == a[1..] + b;
      assert (s + t)[d..] == s[d..] + t;
      TilesConcat(a[1..], b, s[d..], t);
    }
  }

  /** The first block of a tiled range and what it contributes. */
  lemma BufferUnfold(bs: seq<Block>, o: nat, w: seq<nat>)
    requires |w| == Span(bs)
    ensures bs == [] ==> Buffers(bs, o, w) == map[] && |w| == 0
    ensures bs != [] ==>
              var d := bs[0].words + 2;
              && Span(bs) == d + Span(bs[1..])
              && (Tiles(bs, w) <==> w[0] == Header(bs[0]) && w[d - 1] == Footer(bs[0]) && Tiles(bs[1..], w[d..]))
              && Buffers(bs, o, w) == if bs[0].live then Buffers(bs[1..], o + d, w[d..])[o + 1 := w[1..d - 1]]
                                      else Buffers(bs[1..], o + d, w[d..])
  {
  }

  lemma {:induction false} BuffersConcat(a: seq<Block>, b: seq<Block>, o: nat, s: seq<nat>, t: seq<nat>)
    requires |s| == Span(a) && |t| == Span(b)
    ensures Span(a + b) == |s + t|
    ensures Buffers(a + b, o, s + t) == Buffers(a, o, s) + Buffers(b, o + Span(a), t)
    decreases a
  {
    hide Buffers, Tiles, Span;
    SpanConcat(a, b);
    BufferUnfold(a, o, s);
    if a == [] {
      assert a + b == b && s + t == t;
    } else {
      BufferUnfold(a + b, o, s + t);
      var d := a[0].words + 2;
      assert (a + b)[1..] == a[1..] + b;
      assert (s + t)[d..] == s[d..] + t;
      BuffersConcat(a[1..], b, o + d, s[d..], t);
      if a[0].live {
        assert (s + t)[1..d - 1] == s[1..d - 1];
        BuffersAbove(b, o + Span(a), t);
        PutUnion(Buffers(a[1..], o + d, s[d..]), Buffers(b, o + Span(a), t), o + 1, s[1..d - 1]);
      }
    }
  }

  lemma PutUnion(m: map<nat, seq<nat>>, m': map<nat, seq<nat>>, k: nat, v: seq<nat>)
    requires k !in m'
    ensures (m + m')[k := v] == m[k := v] + m'
  {
  }

  lemma {:induction false} BuffersAbove(bs: seq<Block>, o: nat, w: seq<nat>)
    requires |w| == Span(bs)
    ensures forall p :: p in Buffers(bs, o, w) ==> o < p
    decreases bs
  {
    if bs == [] {
    } else {
      var d := bs[0].words + 2;
      BuffersAbove(bs[1..], o + d, w[d..]);
    }
  }

  /** Live payloads lie inside the tiled range and never overlap: two words (a footer and a
    header) separate any two of them. */
  lemma {:induction false} BufferBounds(bs: seq<Block>, o: nat, w: seq<nat>)
    requires |w| == Span(bs)
    ensures forall p :: p in Buffers(bs, o, w) ==> o < p && p + |Buffers(bs, o, w)[p]| < o + |w|
    ensures forall p, q :: p in Buffers(bs, o, w) && q in Buffers(bs, o, w) && p < q ==>
              p + |Buffers(bs, o, w)[p]| + 2 <= q
    decreases bs
  {
    if bs == [] {
    } else {
      var d := bs[0].words + 2;
      BufferBounds(bs[1..], o + d, w[d..]);
    }
  }

  lemma {:induction false} BuffersBelow(bs: seq<Block>, o: nat, w: seq<nat>)
    requires |w| == Span(bs)
    ensures forall p :: p in Buffers(bs, o, w) ==> p < o + |w|
    decreases bs
  {
    if bs == [] {
    } else {
      var d := bs[0].words + 2;
      BuffersBelow(bs[1..], o + d, w[d..]);
    }
  }

  lemma BuffersOne(b: Block, o: nat, w: seq<nat>)
    requires |w| == b.words + 2
    ensures Span([b]) == |w|
    ensures Buffers([b], o, w) == if b.live then map[o + 1 := w[1..|w| - 1]] else map[]
  {
    SpanOne(b);
    assert [b][1..] == [];
    assert Buffers([], o + b.words + 2, w[b.words + 2..]) == map[];
  }

  // ----- rewriting part of the heap

  /** Words `lo` to `hi` of `w` became `part`; the words before and after were kept. */
  ghost function Patch(w: seq<nat>, lo: nat, hi: nat, part: seq<nat>): seq<nat>
    requires lo <= hi <= |w|
  {
    w[..lo] + part + w[hi..]
  }

  lemma Cut(w: seq<nat>, lo: nat, hi: nat)
    requires lo <= hi <= |w|
    ensures w[..hi][..lo] == w[..lo] && w[..hi][lo..] == w[lo..hi]
    ensures w == w[..lo] + w[lo..hi] + w[hi..]
  {
  }

  lemma TilesConcat3(l: seq<Block>, m: seq<Block>, r: seq<Block>, s: seq<nat>, t: seq<nat>, u: seq<nat>)
    requires |s| == Span(l) && |t| == Span(m)
    ensures Tiles(l + m + r, s + t + u) <==> Tiles(l, s) && Tiles(m, t) && Tiles(r, u)
  {
    SpanConcat(l, m);
    TilesConcat(l + m, r, s + t, u);
    TilesConcat(l, m, s, t);
  }

  lemma SpanConcat3(l: seq<Block>, m: seq<Block>, r: seq<Block>)
    ensures Span(l + m + r) == Span(l) + Span(m) + Span(r)
  {
    SpanConcat(l + m, r);
    SpanConcat(l, m);
  }

  lemma BuffersJoin(l: seq<Block>, m: seq<Block>, r: seq<Block>, s: seq<nat>, t: seq<nat>, u: seq<nat>)
    requires |s| == Span(l) && |t| == Span(m) && |u| == Span(r)
    ensures |s + t + u| == Span(l + m + r)
    ensures Buffers(l + m + r, 0, s + t + u)
            == Buffers(l, 0, s) + Buffers(m, |s|, t) + Buffers(r, |s| + |t|, u)
  {
    hide Buffers, Span;
    BuffersConcat(l, m, 0, s, t);
    BuffersConcat(l + m, r, 0, s + t, u);
  }

  /** Replacing the words of blocks `m` by words tiled by `mid` keeps the heap tiled. */
  lemma PatchTiles(l: seq<Block>, m: seq<Block>, r: seq<Block>, mid: seq<Block>, w: seq<nat>, part: seq<nat>)
    requires Tiles(l + m + r, w) && |w| == Span(l) + Span(m) + Span(r)
    requires Tiles(mid, part) && |part| == Span(mid)
    ensures var w' := Patch(w, Span(l), Span(l) + Span(m), part);
            Tiles(l + mid + r, w') && |w'| == Span(l + mid + r)
  {
    hide Tiles, Span;
    var lo, hi := Span(l), Span(l) + Span(m);
    Cut(w, lo, hi);
    TilesConcat3(l, m, r, w[..lo], w[lo..hi], w[hi..]);
    TilesConcat3(l, mid, r, w[..lo], part, w[hi..]);
    SpanConcat3(l, mid, r);
  }

  /** Buffers of a heap, cut around its middle blocks. */
  lemma BuffersParts(l: seq<Block>, m: seq<Block>, r: seq<Block>, w: seq<nat>)
    requires |w| == Span(l) + Span(m) + Span(r)
    ensures |w| == Span(l + m + r)
    ensures var lo, hi := Span(l), Span(l) + Span(m);
            Buffers(l + m + r, 0, w)
            == Buffers(l, 0, w[..lo]) + Buffers(m, lo, w[lo..hi]) + Buffers(r, hi, w[hi..])
  {
    hide Buffers, Span;
    var lo, hi := Span(l), Span(l) + Span(m);
    BuffersJoin(l, m, r, w[..lo], w[lo..hi], w[hi..]);
    Cut(w, lo, hi);
  }

  /** The patch also keeps every buffer outside `m`, contents and position. */
  lemma PatchBuffers(l: seq<Block>, m: seq<Block>, r: seq<Block>, mid: seq<Block>, w: seq<nat>, part: seq<nat>)
    requires |w| == Span(l) + Span(m) + Span(r) && |part| == Span(mid)
    requires r == [] || Span(m) == Span(mid)
    ensures var lo, hi := Span(l), Span(l) + Span(m);
            var w' := Patch(w, lo, hi, part);
            && |w'| == Span(l + mid + r)
            && Buffers(l + mid + r, 0, w')
               == Buffers(l, 0, w[..lo]) + Buffers(mid, lo, part) + Buffers(r, hi, w[hi..])
  {
    var lo, hi := Span(l), Span(l) + Span(m);
    BuffersJoin(l, mid, r, w[..lo], part, w[hi..]);
    if r == [] {
      assert Buffers(r, hi, w[hi..]) == map[] && Buffers(r, lo + |part|, w[hi..]) == map[];
    }
  }

  // ----- allocation

  /** First fit: the lowest free block whose payload holds the request and two more words. */
  function FirstFit(bs: seq<Block>, n: nat): (i: nat)
    ensures i <= |bs|
    ensures i < |bs| ==> !bs[i].live && bs[i].words >= n + 2
    ensures forall k :: 0 <= k < i ==> bs[k].live || bs[k].words < n + 2
  {
    if bs == [] then 0
    else if !bs[0].live && bs[0].words >= n + 2 then 0
    else
      var j := FirstFit(bs[1..], n);
      assert forall k :: 1 <= k < j + 1 ==> bs[k] == bs[1..][k - 1];
      j + 1
  }

  /** Which block a request takes: the first fit or, when there is none, the last block. */
  function Chosen(bs: seq<Block>, n: nat): (i: nat)
    requires bs != []
    ensures i < |bs|
  {
    var i := FirstFit(bs, n);
    if i < |bs| then i else |bs| - 1
  }

  /** Payload size of a block of `have` words grown by pages until it can serve `n` words. */
  ghost function GrownTo(have: nat, n: nat, page: nat): (g: nat)
    requires page > 0
    ensures g >= n + 2 && g >= have
    ensures g == have || g - page < n + 2
    decreases if have < n + 2 then n + 2 - have else 0
  {
    if have >= n + 2 then have else GrownTo(have + page, n, page)
  }

  ghost function ServingSize(bs: seq<Block>, n: nat, page: nat): (g: nat)
    requires bs != [] && page > 0
    ensures g >= n + 2
  {
    GrownTo(bs[Chosen(bs, n)].words, n, page)
  }

  /** The two blocks that replace the chosen one. */
  function Halves(n: nat, g: nat): seq<Block>
    requires g >= n + 2
  {
    [Block(n, true), Block(g - n - 2, false)]
  }

  lemma HalvesSpan(n: nat, g: nat)
    requires g >= n + 2
    ensures Span(Halves(n, g)) == g + 2
  {
    SpanOne(Block(g - n - 2, false));
    assert Halves(n, g)[1..] == [Block(g - n - 2, false)];
  }

  /** The blocks after a request of `n` words. */
  ghost function Allocated(bs: seq<Block>, n: nat, page: nat): seq<Block>
    requires bs != [] && page > 0
  {
    var i := Chosen(bs, n);
    bs[..i] + Halves(n, ServingSize(bs, n, page)) + bs[i + 1..]
  }

  /** Word offset of the payload handed out for a request of `n` words. */
  function PayloadOffset(bs: seq<Block>, n: nat): nat
    requires bs != []
  {
    Span(bs[..Chosen(bs, n)]) + 1
  }

  /** The chosen block is free, and everything about it follows from first fit: the heap grows
    only when no block fits, and then by the fewest pages that make the last block fit. */
  lemma ChosenBlock(bs: seq<Block>, n: nat, page: nat)
    requires Shape(bs) && page > 0
    ensures var i, g := Chosen(bs, n), ServingSize(bs, n, page);
            && !bs[i].live
            && (FirstFit(bs, n) < |bs| ==> g == bs[i].words)
            && (FirstFit(bs, n) == |bs| ==>
                  i == |bs| - 1 && bs[i].words < n + 2 <= g < n + 2 + page)
            && Span(Allocated(bs, n, page)) == Span(bs) + g - bs[i].words
  {
    var i, g := Chosen(bs, n), ServingSize(bs, n, page);
    SpanAround(bs, i);
    HalvesSpan(n, g);
    SpanConcat3(bs[..i], Halves(n, g), bs[i + 1..]);
  }

  /** The chosen block is cut at its lower end: the payload begins right after its header, the rest is a
    free block, and all other blocks are as before. */
  lemma AllocatedBlocks(bs: seq<Block>, n: nat, page: nat)
    requires bs != [] && page > 0
    ensures var i, bs' := Chosen(bs, n), Allocated(bs, n, page);
            && i == (if FirstFit(bs, n) < |bs| then FirstFit(bs, n) else |bs| - 1)
            && PayloadOffset(bs, n) == Span(bs'[..i]) + 1 == Span(bs[..i]) + 1
            && |bs'| == |bs| + 1 && bs'[i] == Block(n, true)
            && !bs'[i + 1].live && bs'[i + 1].words >= bs[i].words - n - 2
            && (bs[i].words >= n + 2 ==> bs'[i + 1].words == bs[i].words - n - 2)
            && (forall k :: 0 <= k < i ==> bs'[k] == bs[k])
            && (forall k :: i < k < |bs| ==> bs'[k + 1] == bs[k])
  {
    var i := Chosen(bs, n);
    assert Allocated(bs, n, page)[..i] == bs[..i];
  }

  lemma AllocatedShape(bs: seq<Block>, n: nat, page: nat)
    requires Shape(bs) && page > 0
    ensures Shape(Allocated(bs, n, page))
  {
    ChosenBlock(bs, n, page);
    var i := Chosen(bs, n);
    var bs' := Allocated(bs, n, page);
    forall k | 0 <= k < |bs'| - 1
      ensures bs'[k].live || bs'[k + 1].live
    {
      if k + 1 < i {
        assert bs'[k] == bs[k] && bs'[k + 1] == bs[k + 1];
      } else if k > i {
        assert bs'[k + 1] == bs[k] && (k > i + 1 ==> bs'[k] == bs[k - 1]);
        assert bs[k - 1].live || bs[k].live;
      }
    }
  }

  // ----- release

  ghost predicate PrevFree(bs: seq<Block>, i: nat) {
    0 < i <= |bs| && !bs[i - 1].live
  }

  ghost predicate NextFree(bs: seq<Block>, i: nat) {
    i + 1 < |bs| && !bs[i + 1].live
  }

  /** First block merged by releasing block `i`, and the block after the last one. */
  ghost function MergeLo(bs: seq<Block>, i: nat): (lo: nat)
    ensures lo <= i
  {
    if PrevFree(bs, i) then i - 1 else i
  }

  ghost function MergeHi(bs: seq<Block>, i: nat): (hi: nat)
    requires i < |bs|
    ensures i < hi <= |bs|
  {
    if NextFree(bs, i) then i + 2 else i + 1
  }

  ghost function Merged(bs: seq<Block>, i: nat): (b: Block)
    requires i < |bs|
    ensures b.words + 2 == Span(bs[MergeLo(bs, i)..MergeHi(bs, i)]) && !b.live
  {
    Block(Span(bs[MergeLo(bs, i)..MergeHi(bs, i)]) - 2, false)
  }

  /** The blocks after releasing block `i`: it and its free neighbours become one free block. */
  ghost function Released(bs: seq<Block>, i: nat): seq<Block>
    requires i < |bs|
  {
    bs[..MergeLo(bs, i)] + [Merged(bs, i)] + bs[MergeHi(bs, i)..]
  }

  lemma ReleasedShape(bs: seq<Block>, i: nat)
    requires Shape(bs) && i < |bs| && bs[i].live
    ensures Shape(Released(bs, i))
  {
    var lo, hi := MergeLo(bs, i), MergeHi(bs, i);
    var bs' := Released(bs, i);
    assert forall k :: lo < k < |bs'| ==> bs'[k] == bs[k + hi - lo - 1];
    assert hi < |bs| ==> bs[hi - 1].live || bs[hi].live;
    if PrevFree(bs, i) && 0 < lo {
      assert bs[lo - 1].live;
    }
    forall k | 0 <= k < |bs'| - 1
      ensures bs'[k].live || bs'[k + 1].live
    {
      if k + 1 < lo {
        assert bs'[k] == bs[k] && bs'[k + 1] == bs[k + 1];
      } else if k > lo {
        assert bs[k + hi - lo - 1].live || bs[k + hi - lo].live;
      }
    }
  }

  /** Of the blocks merged by a release only the released one is live. */
  lemma BuffersMerged(bs: seq<Block>, i: nat, o: nat, w: seq<nat>)
    requires i < |bs| && bs[i].live
    requires |w| == Span(bs[MergeLo(bs, i)..MergeHi(bs, i)])
    ensures var p := o + Span(bs[MergeLo(bs, i)..i]) + 1;
            Buffers(bs[MergeLo(bs, i)..MergeHi(bs, i)], o, w).Keys == {p}
  {
    hide Tiles, Buffers, Span;
    var lo, hi := MergeLo(bs, i), MergeHi(bs, i);
    var a, b, c := bs[lo..i], [bs[i]], bs[i + 1..hi];
    assert bs[lo..hi] == a + b + c;
    SpanConcat(a + b, c);
    SpanConcat(a, b);
    var j, k := Span(a), Span(a) + Span(b);
    assert w == w[..j] + w[j..k] + w[k..];
    assert w[..j] + w[j..k] == w[..k];
    BuffersConcat(a + b, c, o, w[..k], w[k..]);
    BuffersConcat(a, b, o, w[..j], w[j..k]);
    SpanOne(bs[i]);
    BuffersOne(bs[i], o + j, w[j..k]);
    BufferUnfold(a, o, w[..j]);
    BufferUnfold(c, o + k, w[k..]);
    if lo < i {
      assert a == [bs[i - 1]];
      SpanOne(bs[i - 1]);
      BuffersOne(bs[i - 1], o, w[..j]);
    }
    if i + 1 < hi {
      assert c == [bs[i + 1]];
      SpanOne(bs[i + 1]);
      BuffersOne(bs[i + 1], o + k, w[k..]);
    }
  }

  /** A heap with nothing live is one free block: coalescing has left no other shape. */
  lemma NothingLive(h: Heap)
    requires Good(h)
    ensures Contents(h) == map[] <==> h.blocks == [Block(|h.words| - 2, false)]
  {
    var bs, w := h.blocks, h.words;
    var d := bs[0].words + 2;
    if |bs| == 1 {
      assert bs == [bs[0]];
      SpanOne(bs[0]);
      BuffersOne(bs[0], 0, w);
    } else if bs[0].live {
      assert 1 in Buffers(bs, 0, w);
    } else {
      assert bs[0].live || bs[1].live;
      assert bs[1..][0] == bs[1];
      assert d + 1 in Buffers(bs[1..], d, w[d..]);
      assert d + 1 in Buffers(bs, 0, w);
    }
  }

  // ----- steps and runs

  datatype Op = Allocate(n: nat) | Release(p: nat) | Write(p: nat, k: nat, v: nat)

  /** Allocation patches the chosen block, growing it if it is too small, and nothing else. */
  ghost predicate Allocates(h: Heap, n: nat, page: nat, h': Heap)
    requires h.blocks != [] && page > 0
  {
    var bs := h.blocks;
    var i, g := Chosen(bs, n), ServingSize(bs, n, page);
    var lo, hi := Span(bs[..i]), Span(bs[..i + 1]);
    && h'.blocks == Allocated(bs, n, page)
    && lo <= hi <= |h.words|
    && exists part :: Tiles(Halves(n, g), part) && h'.words == Patch(h.words, lo, hi, part)
  }

  /** Release patches the merged blocks and nothing else. */
  ghost predicate Releases(h: Heap, i: nat, h': Heap)
    requires Good(h) && i < |h.blocks|
  {
    var bs := h.blocks;
    var lo, hi := Span(bs[..MergeLo(bs, i)]), Span(bs[..MergeHi(bs, i)]);
    && h'.blocks == Released(bs, i)
    && lo <= hi <= |h.words|
    && exists part :: Tiles([Merged(bs, i)], part) && h'.words == Patch(h.words, lo, hi, part)
  }

  ghost predicate LiveAt(bs: seq<Block>, i: nat, p: nat) {
    i < |bs| && bs[i].live && p == Span(bs[..i]) + 1
  }

  /** One use of the heap: an allocation, the release of a live payload, or a client's write
    into a live payload. */
  ghost predicate Step(page: nat, h: Heap, op: Op, h': Heap)
    requires Good(h) && page > 0
  {
    match op
    case Allocate(n) => Allocates(h, n, page, h')
    case Release(p) => exists i: nat :: LiveAt(h.blocks, i, p) && Releases(h, i, h')
    case Write(p, k, v) =>
      && p in Contents(h) && k < |Contents(h)[p]| && p + k < |h.words|
      && h' == Heap(h.words[p + k := v], h.blocks)
  }

  lemma HalvesBuffers(n: nat, g: nat, o: nat, part: seq<nat>)
    requires g >= n + 2 && |part| == g + 2
    ensures |part| == Span(Halves(n, g))
    ensures Buffers(Halves(n, g), o, part) == map[o + 1 := part[1..n + 1]]
  {
    HalvesSpan(n, g);
    var b, c := Block(n, true), Block(g - n - 2, false);
    assert Halves(n, g) == [b] + [c];
    assert part == part[..n + 2] + part[n + 2..];
    SpanOne(b);
    SpanOne(c);
    BuffersConcat([b], [c], o, part[..n + 2], part[n + 2..]);
    BuffersOne(b, o, part[..n + 2]);
    BuffersOne(c, o + n + 2, part[n + 2..]);
  }

  /** A middle part without buffers gets one: the union gains it and loses nothing. */
  lemma UnionGains(l: map<nat, seq<nat>>, r: map<nat, seq<nat>>, p: nat, v: seq<nat>)
    requires p !in l && p !in r
    ensures p !in l + map[] + r
    ensures l + map[p := v] + r == (l + map[] + r)[p := v]
  {
  }

  /** A middle part with one buffer is emptied: the union loses exactly that one. */
  lemma UnionLoses(l: map<nat, seq<nat>>, m: map<nat, seq<nat>>, r: map<nat, seq<nat>>, p: nat)
    requires p !in l && p !in r && m.Keys == {p}
    ensures p in l + m + r
    ensures l + map[] + r == (l + m + r) - {p}
  {
  }

  lemma AllocateKeeps(page: nat, h: Heap, n: nat, h': Heap)
    requires Good(h) && page > 0 && Allocates(h, n, page, h')
    ensures Good(h')
    ensures var p := PayloadOffset(h.blocks, n);
            && p !in Contents(h) && p in Contents(h') && |Contents(h')[p]| == n
            && Contents(h') == Contents(h)[p := Contents(h')[p]]
  {
    hide Tiles, Buffers, Span, Halves, Shape;
    var bs, w := h.blocks, h.words;
    var i, g := Chosen(bs, n), ServingSize(bs, n, page);
    var part :| Tiles(Halves(n, g), part) && h'.words == Patch(w, Span(bs[..i]), Span(bs[..i + 1]), part);
    SpanAround(bs, i);
    HalvesSpan(n, g);
    TilesSpan(Halves(n, g), part);
    PatchTiles(bs[..i], [bs[i]], bs[i + 1..], Halves(n, g), w, part);
    AllocatedShape(bs, n, page);
    AllocateBuffers(bs, n, page, w, part);
  }

  lemma AllocateBuffers(bs: seq<Block>, n: nat, page: nat, w: seq<nat>, part: seq<nat>)
    requires Shape(bs) && page > 0 && |w| == Span(bs) && |part| == ServingSize(bs, n, page) + 2
    ensures var i, p := Chosen(bs, n), PayloadOffset(bs, n);
            && Span(bs[..i]) <= Span(bs[..i + 1]) <= |w|
            && var w' := Patch(w, Span(bs[..i]), Span(bs[..i + 1]), part);
            && |w'| == Span(Allocated(bs, n, page))
            && p !in Buffers(bs, 0, w)
            && Buffers(Allocated(bs, n, page), 0, w') == Buffers(bs, 0, w)[p := part[1..n + 1]]
  {
    hide Buffers, Span, Halves, GrownTo, FirstFit;
    var i, g, p := Chosen(bs, n), ServingSize(bs, n, page), PayloadOffset(bs, n);
    var l, m, r, mid := bs[..i], [bs[i]], bs[i + 1..], Halves(n, g);
    var lo, hi := Span(l), Span(l) + Span(m);
    SpanAround(bs, i);
    ChosenBlock(bs, n, page);
    HalvesSpan(n, g);
    BuffersParts(l, m, r, w);
    PatchBuffers(l, m, r, mid, w, part);
    BuffersOne(bs[i], lo, w[lo..hi]);
    HalvesBuffers(n, g, lo, part);
    BuffersBelow(l, 0, w[..lo]);
    BuffersAbove(r, hi, w[hi..]);
    UnionGains(Buffers(l, 0, w[..lo]), Buffers(r, hi, w[hi..]), p, part[1..n + 1]);
  }

  lemma ReleaseKeeps(h: Heap, i: nat, h': Heap)
    requires Good(h) && i < |h.blocks| && h.blocks[i].live && Releases(h, i, h')
    ensures Good(h')
    ensures Span(h.blocks[..i]) + 1 in Contents(h)
    ensures Contents(h') == Contents(h) - {Span(h.blocks[..i]) + 1}
  {
    hide Tiles, Buffers, Span, Shape, Merged, MergeLo, MergeHi;
    var bs, w := h.blocks, h.words;
    var a, b := MergeLo(bs, i), MergeHi(bs, i);
    var lo, hi := Span(bs[..a]), Span(bs[..b]);
    var part :| Tiles([Merged(bs, i)], part) && h'.words == Patch(w, lo, hi, part);
    var l, m, r, mid := bs[..a], bs[a..b], bs[b..], [Merged(bs, i)];
    assert bs == l + m + r;
    SpanPart(bs, a, b);
    ReleasedShape(bs, i);
    TilesSpan(mid, part);
    SpanOne(Merged(bs, i));
    PatchTiles(l, m, r, mid, w, part);
    ReleaseBuffers(bs, i, w, part);
  }

  lemma ReleaseBuffers(bs: seq<Block>, i: nat, w: seq<nat>, part: seq<nat>)
    requires i < |bs| && bs[i].live && |w| == Span(bs) && |part| == Merged(bs, i).words + 2
    ensures var a, b := MergeLo(bs, i), MergeHi(bs, i);
            && Span(bs[..a]) <= Span(bs[..b]) <= |w|
            && var w' := Patch(w, Span(bs[..a]), Span(bs[..b]), part);
            && |w'| == Span(Released(bs, i))
            && Span(bs[..i]) + 1 in Buffers(bs, 0, w)
            && Buffers(Released(bs, i), 0, w') == Buffers(bs, 0, w) - {Span(bs[..i]) + 1}
  {
    hide Buffers, Span, Merged, MergeLo, MergeHi;
    var a, b := MergeLo(bs, i), MergeHi(bs, i);
    var l, m, r, mid := bs[..a], bs[a..b], bs[b..], [Merged(bs, i)];
    var lo, hi := Span(l), Span(l) + Span(m);
    var p := Span(bs[..i]) + 1;
    assert bs == l + m + r;
    SpanPart(bs, a, b);
    SpanPart(bs, a, i);
    SpanOne(Merged(bs, i));
    BuffersParts(l, m, r, w);
    PatchBuffers(l, m, r, mid, w, part);
    BuffersOne(Merged(bs, i), lo, part);
    BuffersMerged(bs, i, lo, w[lo..hi]);
    BuffersBelow(l, 0, w[..lo]);
    assert lo < p < hi by {
      BuffersBelow(m, lo, w[lo..hi]);
      BuffersAbove(m, lo, w[lo..hi]);
      assert p in Buffers(m, lo, w[lo..hi]).Keys;
    }
    BuffersAbove(r, hi, w[hi..]);
    UnionLoses(Buffers(l, 0, w[..lo]), Buffers(m, lo, w[lo..hi]), Buffers(r, hi, w[hi..]), p);
  }

  ghost function Put(s: seq<nat>, k: nat, v: nat): seq<nat>
    requires k < |s|
  {
    s[k := v]
  }

  /** A write inside a live payload hits no header, no footer and no other payload. */
  lemma {:induction false} WriteKeeps(bs: seq<Block>, o: nat, w: seq<nat>, p: nat, k: nat, v: nat)
    requires Tiles(bs, w) && |w| == Span(bs)
    requires p in Buffers(bs, o, w) && k < |Buffers(bs, o, w)[p]| && o <= p + k < o + |w|
    ensures Tiles(bs, Put(w, p + k - o, v))
    ensures Buffers(bs, o, Put(w, p + k - o, v)) == Buffers(bs, o, w)[p := Put(Buffers(bs, o, w)[p], k, v)]
    decreases bs
  {
    hide Tiles, Buffers, Span, Header, Footer;
    BufferUnfold(bs, o, w);
    BufferBounds(bs, o, w);
    var d := bs[0].words + 2;
    var w' := Put(w, p + k - o, v);
    BufferUnfold(bs, o, w');
    BufferBounds(bs[1..], o + d, w[d..]);
    if p in Buffers(bs[1..], o + d, w[d..]) {
      WriteKeeps(bs[1..], o + d, w[d..], p, k, v);
      PutAfter(w, d, p + k - o, v);
    } else {
      PutBefore(w, d, p + k - o, v);
      assert p == o + 1;
    }
  }

  lemma PutAfter(w: seq<nat>, d: nat, i: nat, v: nat)
    requires 1 < d <= i < |w|
    ensures Put(w, i, v)[d..] == Put(w[d..], i - d, v) && Put(w, i, v)[1..d - 1] == w[1..d - 1]
    ensures Put(w, i, v)[0] == w[0] && Put(w, i, v)[d - 1] == w[d - 1]
  {
  }

  lemma PutBefore(w: seq<nat>, d: nat, i: nat, v: nat)
    requires 0 < i < d - 1 < |w|
    ensures Put(w, i, v)[d..] == w[d..] && Put(w, i, v)[1..d - 1] == Put(w[1..d - 1], i - 1, v)
    ensures Put(w, i, v)[0] == w[0] && Put(w, i, v)[d - 1] == w[d - 1]
  {
  }

  /** How a step may change what clients see. */
  ghost predicate Effect(h: Heap, op: Op, h': Heap)
    requires Good(h) && Good(h')
  {
    match op
    case Allocate(n) =>
      var p := PayloadOffset(h.blocks, n);
      && p !in Contents(h) && p in Contents(h') && |Contents(h')[p]| == n
      && Contents(h') == Contents(h)[p := Contents(h')[p]]
    case Release(p) => p in Contents(h) && Contents(h') == Contents(h) - {p}
    case Write(p, k, v) =>
      && p in Contents(h) && k < |Contents(h)[p]|
      && Contents(h') == Contents(h)[p := Put(Contents(h)[p], k, v)]
  }

  lemma WriteEffect(h: Heap, p: nat, k: nat, v: nat, h': Heap)
    requires Good(h) && p in Contents(h) && k < |Contents(h)[p]| && p + k < |h.words|
    requires h' == Heap(h.words[p + k := v], h.blocks)
    ensures Good(h') && Effect(h, Write(p, k, v), h')
  {
    hide Tiles, Buffers, Span, Shape;
    WriteKeeps(h.blocks, 0, h.words, p, k, v);
    assert h'.words == Put(h.words, p + k - 0, v);
  }

  lemma StepKeeps(page: nat, h: Heap, op: Op, h': Heap)
    requires Good(h) && page > 0 && Step(page, h, op, h')
    ensures Good(h') && Effect(h, op, h')
  {
    hide Tiles, Buffers, Span, Shape, Allocates, Releases, Patch;
    match op
    case Allocate(n) =>
      AllocateKeeps(page, h, n, h');
    case Release(p) =>
      var i: nat :| LiveAt(h.blocks, i, p) && Releases(h, i, h');
      ReleaseKeeps(h, i, h');
    case Write(p, k, v) =>
      WriteEffect(h, p, k, v, h');
  }

  /** A run: heap `hs[k]` becomes `hs[k + 1]` by operation `ops[k]`. */
  ghost predicate Run(page: nat, hs: seq<Heap>, ops: seq<Op>)
    requires page > 0
  {
    && |hs| == |ops| + 1
    && Good(hs[0])
    && forall k :: 0 <= k < |ops| ==> Good(hs[k]) ==> Step(page, hs[k], ops[k], hs[k + 1])
  }

  /** Over any run the heap stays well formed, and it behaves as a map from pointers to
    buffers: each step changes only the buffer it names. */
  lemma {:induction false} RunRefinesBuffers(page: nat, hs: seq<Heap>, ops: seq<Op>, k: nat)
    requires page > 0 && Run(page, hs, ops) && k < |hs|
    ensures Good(hs[k])
    ensures k < |ops| ==> Good(hs[k + 1]) && Effect(hs[k], ops[k], hs[k + 1])
  {
    hide Good, Step, Effect;
    if k == 0 {
    } else {
      RunRefinesBuffers(page, hs, ops, k - 1);
    }
    if k < |ops| {
      StepKeeps(page, hs[k], ops[k], hs[k + 1]);
    }
  }

  ghost predicate Touches(op: Op, p: nat) {
    match op
    case Allocate(_) => false
    case Release(q) => q == p
    case Write(q, _, _) => q == p
  }

  /** A buffer keeps its contents for as long as nobody writes or releases that buffer,
    whatever else is allocated, released or written meanwhile. */
  lemma {:induction false} BufferStable(page: nat, hs: seq<Heap>, ops: seq<Op>, a: nat, b: nat, p: nat)
    requires page > 0 && Run(page, hs, ops) && a <= b < |hs|
    requires Good(hs[a]) && p in Contents(hs[a])
    requires forall k :: a <= k < b ==> !Touches(ops[k], p)
    ensures Good(hs[b]) && p in Contents(hs[b]) && Contents(hs[b])[p] == Contents(hs[a])[p]
    decreases b - a
  {
    hide Good, Step, PayloadOffset;
    if a == b {
    } else {
      RunRefinesBuffers(page, hs, ops, a);
      assert !Touches(ops[a], p);
      BufferStable(page, hs, ops, a + 1, b, p);
    }
  }

  /** Once everything allocated in a run has been released, in whatever order, the memory is
    one free block again. */
  lemma AllReleased(page: nat, hs: seq<Heap>, ops: seq<Op>, k: nat)
    requires page > 0 && Run(page, hs, ops) && k < |hs|
    ensures Good(hs[k])
    ensures Contents(hs[k]) == map[] <==> hs[k].blocks == [Block(|hs[k].words| - 2, false)]
  {
    RunRefinesBuffers(page, hs, ops, k);
    NothingLive(hs[k]);
  }
}
