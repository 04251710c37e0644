/** The physical page-frame allocator over the packed bitmap. */
module PhysicalMemoryModel {
  import opened BitMapModel
  import opened FrameMap

  // Frames are 4096 bytes; addresses are 32 bits wide.

  function PageCount(length: nat): nat {
    length / 4096 + if length % 4096 != 0 then 1 else 0
  }

  /** As many frames as hold `length` bytes, and no more. */
  lemma PageCountIs(length: nat)
    ensures var n := PageCount(length);
            if length == 0 then n == 0 else 4096 * (n - 1) < length <= 4096 * n
  {
  }

  // ----- frames and bytes

  predicate InFrame(b: nat, k: nat) {
    4096 * k <= b < 4096 * (k + 1)
  }

  /** Frame `k` holds one of the `length` bytes from `from` on. */
  ghost predicate HoldsByte(k: nat, from: nat, length: nat) {
    exists b: nat :: from <= b < from + length && InFrame(b, k)
  }

  /** The frames that hold the bytes are all there and free. */
  ghost predicate BytesFree(s: seq<bool>, from: nat, length: nat) {
    from <= 4096 * |s| && forall k: nat :: HoldsByte(k, from, length) ==> k < |s| && !s[k]
  }

  /** The frames that hold the bytes are now taken; no other frame changed. */
  ghost predicate Takes(s: seq<bool>, s': seq<bool>, from: nat, length: nat) {
    && |s'| == |s|
    && (forall k: nat :: k < |s| ==> (s'[k] <==> s[k] || HoldsByte(k, from, length)))
  }

  /** The frames that hold the bytes are free now; no other frame changed. */
  ghost predicate Gives(s: seq<bool>, s': seq<bool>, from: nat, length: nat) {
    && |s'| == |s|
    && (forall k: nat :: k < |s| ==> (s'[k] <==> s[k] && !HoldsByte(k, from, length)))
  }

  lemma FramesHold(p: nat, length: nat, k: nat)
    ensures HoldsByte(k, 4096 * p, length) <==> p <= k < p + PageCount(length)
  {
    PageCountIs(length);
    if p <= k < p + PageCount(length) {
      assert InFrame(4096 * k, k);
    }
  }

  /** Marking a run of frames is taking, or giving back, the bytes from its start on. */
  lemma RunBytes(s: seq<bool>, phys: nat, length: nat)
    ensures var p, n, from := phys / 4096, PageCount(length), phys - phys % 4096;
            && (RunFree(s, p, n) <==> BytesFree(s, from, length))
            && (RunFree(s, p, n) ==> Takes(s, Marked(s, p, n, true), from, length))
            && (p + n <= |s| ==> Gives(s, Marked(s, p, n, false), from, length))
  {
    hide HoldsByte, PageCount;
    var p, n, from := phys / 4096, PageCount(length), phys - phys % 4096;
    assert from == 4096 * p;
    forall k: nat
      ensures HoldsByte(k, from, length) <==> p <= k < p + n
    {
      FramesHold(p, length, k);
    }
    if 0 < n {
      assert HoldsByte(p + n - 1, from, length);
    }
  }

  /** From an address inside a frame as many frames are counted as for a whole one: all bytes are in
    the frames counted exactly if they end where those do, or before. */
  lemma UnalignedBytes(phys: nat, length: nat)
    ensures (forall k: nat :: HoldsByte(k, phys, length) ==> HoldsByte(k, phys - phys % 4096, length))
            <==> length == 0 || phys % 4096 + length <= 4096 * PageCount(length)
  {
    PageCountIs(length);
    var p, n := phys / 4096, PageCount(length);
    assert phys - phys % 4096 == 4096 * p;
    forall k: nat
      ensures HoldsByte(k, 4096 * p, length) <==> p <= k < p + n
    {
      FramesHold(p, length, k);
    }
    if length > 0 {
      LastFrame(phys, length);
      var last := (phys + length - 1) / 4096;
      assert HoldsByte(last, phys, length);
      assert last < p + n <==> phys % 4096 + length <= 4096 * n;
    }
  }

  lemma LastFrame(phys: nat, length: nat)
    requires length > 0
    ensures forall k: nat :: HoldsByte(k, phys, length) <==> phys / 4096 <= k <= (phys + length - 1) / 4096
  {
    forall k: nat
      ensures HoldsByte(k, phys, length) <==> phys / 4096 <= k <= (phys + length - 1) / 4096
    {
      if phys / 4096 <= k <= (phys + length - 1) / 4096 {
        assert InFrame(if 4096 * k < phys then phys else 4096 * k, k);
      }
    }
  }

  /** Of 4096 bytes from 0x1800 on only those in frame 1 are counted. */
  lemma UnalignedMisses()
    ensures HoldsByte(2, 0x1800, 0x1000) && !HoldsByte(2, 0x1800 - 0x1800 % 4096, 0x1000)
  {
    assert InFrame(0x2000, 2);
  }

  // ----- rounding with a mask

  /** `x & ~y`, bit by bit. */
  function AndNot(x: nat, y: nat): (r: nat)
    ensures r <= x
  {
    if x == 0 then 0 else 2 * AndNot(x / 2, y / 2) + if x % 2 == 1 && y % 2 == 0 then 1 else 0
  }

  function AlignDown(x: nat, a: nat): nat
    requires a > 0
  {
    AndNot(x, a - 1)
  }

  predicate PowerOfTwo(a: nat)
    requires a > 0
  {
    a == 1 || (a % 2 == 0 && PowerOfTwo(a / 2))
  }

  /** Clearing the low bits rounds down to a multiple for every address if and only if the
    alignment is a power of two. */
  lemma MaskRounds(a: nat)
    requires a > 0
    ensures PowerOfTwo(a) <==> forall x: nat :: AlignDown(x, a) == x - x % a
  {
    if PowerOfTwo(a) {
      forall x: nat
        ensures AlignDown(x, a) == x - x % a
      {
        MaskRoundsAt(x, a);
      }
    } else {
      MaskOfItself(a);
      DivUnique(a, a, 1, 0);
      assert AlignDown(a, a) != a - a % a;
    }
  }

  lemma {:induction false} MaskRoundsAt(x: nat, a: nat)
    requires a > 0 && PowerOfTwo(a)
    ensures AlignDown(x, a) == x - x % a
    decreases a
  {
    hide AndNot;
    if a == 1 {
      NothingCleared(x);
    } else {
      MaskRoundsAt(x / 2, a / 2);
      MaskDoubled(x, a / 2);
      HalfMod(x, a / 2);
    }
  }

  lemma MaskDoubled(x: nat, b: nat)
    requires b > 0
    ensures AlignDown(x, 2 * b) == 2 * AlignDown(x / 2, b)
  {
    assert (2 * b - 1) % 2 == 1 && (2 * b - 1) / 2 == b - 1;
  }

  lemma {:induction false} NothingCleared(x: nat)
    ensures AndNot(x, 0) == x
  {
    if x == 0 {
    } else {
      NothingCleared(x / 2);
    }
  }

  lemma HalfMod(x: nat, b: nat)
    requires b > 0
    ensures x % (2 * b) == 2 * (x / 2 % b) + x % 2
  {
    var q, r := x / 2 / b, x / 2 % b;
    assert x / 2 == b * q + r;
    assert 2 * (b * q) == (2 * b) * q;
    DivUnique(x, 2 * b, q, 2 * r + x % 2);
  }

  lemma {:induction false} MaskOfItself(a: nat)
    requires a > 0
    ensures AlignDown(a, a) == a <==> PowerOfTwo(a)
  {
    if a % 2 == 0 {
      MaskDoubled(a, a / 2);
      MaskOfItself(a / 2);
    } else {
      SelfCleared(a / 2);
    }
  }

  lemma {:induction false} SelfCleared(x: nat)
    ensures AndNot(x, x) == 0
  {
    if x == 0 {
    } else {
      SelfCleared(x / 2);
    }
  }

  lemma {:induction false} TripleMisses(m: nat)
    requires m > 0 && PowerOfTwo(m)
    ensures AlignDown(4 * m, 3 * m) == 4 * m && !PowerOfTwo(3 * m)
    decreases m
  {
    if m > 1 {
      TripleMisses(m / 2);
      MaskDoubled(4 * m, 3 * (m / 2));
    } else {
      assert AndNot(4, 2) == 4;
    }
  }

  /** With an alignment of three pages address 0x4000 is left where it is, which is no multiple. */
  lemma MaskMisses()
    ensures AlignDown(0x4000, 0x3000) == 0x4000 && 0x4000 % 0x3000 != 0
  {
    hide AlignDown;
    PageIsPower();
    TripleMisses(4096);
  }

  lemma PageIsPower()
    ensures PowerOfTwo(4096)
  {
    assert PowerOfTwo(16);
    assert PowerOfTwo(256);
  }

  /** The frame index the source computes from a search result: shifted to an address, pushed
    up by `align` (not `align - 1`), masked down and shifted back, all in 32-bit arithmetic. */
  function AlignedIndex(f: int, align: nat): nat
    requires f >= -1 && align > 0
  {
    var phys := 4096 * f % 0x1_0000_0000;
    AlignDown((phys + align) % 0x1_0000_0000, align) / 4096
  }

  lemma ScaledMod(u: nat, a: nat)
    requires a > 0
    ensures (4096 * u) % (4096 * a) == 4096 * (u % a)
  {
    var q, r := u / a, u % a;
    assert u == a * q + r;
    var m := 4096 * a;
    assert 4096 * u == m * q + 4096 * r by {
      assert 4096 * (a * q) == m * q;
    }
    DivUnique(4096 * u, m, q, 4096 * r);
  }

  lemma DivUnique(x: nat, m: nat, q: nat, r: nat)
    requires m > 0 && x == m * q + r && r < m
    ensures x % m == r
  {
    var q', r' := x / m, x % m;
    assert m * (q - q') == r' - r;
    MulMonotone(m, 1, q - q');
    MulMonotone(m, q - q', -1);
  }

  /** While addresses do not overflow, the index is the next multiple past the frame found. */
  lemma AlignedIndexFound(f: nat, a: nat)
    requires a > 0 && PowerOfTwo(4096 * a) && 4096 * (f + a) < 0x1_0000_0000
    ensures AlignedIndex(f, 4096 * a) == NextMultiple(f, a)
  {
    hide PowerOfTwo, AlignDown;
    MaskRoundsAt(4096 * (f + a), 4096 * a);
    PastMultiple(f, a);
  }

  lemma PastMultiple(f: nat, a: nat)
    requires a > 0
    ensures 4096 * (f + a) - (4096 * (f + a)) % (4096 * a) == 4096 * NextMultiple(f, a)
  {
    var u, q, r := f + a, f / a, f % a;
    assert f == a * q + r;
    assert a * (q + 1) == a * q + a;
    DivUnique(u, a, q + 1, r);
    ScaledMod(u, a);
    assert NextMultiple(f, a) == a * (q + 1);
  }

  /** A failed search (-1) wraps round to index 0, so the caller's test for -1 never succeeds. */
  lemma AlignedIndexLost(a: nat)
    requires a > 0 && PowerOfTwo(4096 * a) && 4096 * a < 0x1_0000_0000
    ensures AlignedIndex(-1, 4096 * a) == 0
  {
    hide PowerOfTwo, AlignDown;
    var up := 4096 * a - 4096;
    MaskRoundsAt(up, 4096 * a);
    DivUnique(up, 4096 * a, 0, up);
  }

  class PhysicalMemory {
    const spBitmap: BitMap

    /** Frames that exist; the map keeps all others taken. */
    const frames: nat

    ghost predicate Valid()
      reads this, spBitmap, spBitmap.memory
    {
      && spBitmap.memory.Length > 0
      && frames < 0x10_0000 && frames <= spBitmap.Size()
      && forall k :: frames <= k < spBitmap.Size() ==> Taken()[k]
    }

    ghost function Taken(): seq<bool>
      reads spBitmap, spBitmap.memory
    {
      spBitmap.Bits()
    }

    /** All frames start out taken. */
    constructor (memory: array<bv8>, frames: nat)
      requires memory.Length > 0 && frames < 0x10_0000 && frames <= 8 * memory.Length
      modifies memory
      ensures Valid() && this.frames == frames && spBitmap.memory == memory && fresh(spBitmap)
      ensures Taken() == seq(8 * memory.Length, _ => true)
    {
      spBitmap := new BitMap(memory);
      this.frames := frames;
      new;
      spBitmap.SetAll(true);
    }

    /** Sets `count` frames from `index` to `value`, one bit at a time. */
    method SetRun(index: nat, count: nat, value: bool)
      requires index + count <= spBitmap.Size()
      modifies spBitmap.memory
      ensures Taken() == Marked(old(Taken()), index, count, value)
    {
      var off := 0;
      while off < count
        invariant off <= count
        invariant Taken() == Marked(old(Taken()), index, off, value)
      {
        spBitmap.Set(index + off, value);
        off := off + 1;
      }
    }

    /** `tryAllocate`: claims all pages of the range, or none. */
    method TryAllocate(phys: nat, length: nat) returns (ok: bool)
      modifies spBitmap.memory
      ensures ok <==> RunFree(old(Taken()), phys / 4096, PageCount(length))
      ensures Taken() == if ok then Marked(old(Taken()), phys / 4096, PageCount(length), true) else old(Taken())
      ensures ok <==> BytesFree(old(Taken()), phys - phys % 4096, length)
      ensures ok ==> Takes(old(Taken()), Taken(), phys - phys % 4096, length)
    {
      hide Takes, BytesFree;
      RunBytes(Taken(), phys, length);
      if phys / 4096 + PageCount(length) > spBitmap.Size() {
        return false;
      }
      var off := 0;
      while off < PageCount(length)
        invariant off <= PageCount(length) && Taken() == old(Taken())
        invariant forall k :: phys / 4096 <= k < phys / 4096 + off ==> !Taken()[k]
      {
        var taken := spBitmap.Get(phys / 4096 + off);
        if taken {
          return false;
        }
        off := off + 1;
      }
      SetRun(phys / 4096, PageCount(length), true);
      return true;
    }

    /** `allocateAligned`: scans for an aligned free run.  The source returns at all exactly if
      the scan ends (`FrameMap.ScanEnds`).  The answer is 0 exactly when it gives up, unless it was
      frame 0 that served the request (`FrameMap.ZeroGranted`). */
    method AllocateAligned(length: nat, align: nat) returns (phys: nat)
      requires Valid()
      requires 4096 <= align < 0x1_0000_0000 && PowerOfTwo(align) && align % 4096 == 0
      requires frames + align / 4096 <= 0x10_0000
      requires Ends(Taken(), align / 4096, PageCount(length))
      modifies spBitmap.memory
      ensures Valid() && phys % 4096 == 0
      ensures Refused(old(Taken()), align / 4096, PageCount(length)) ==> phys == 0 && Taken() == old(Taken())
      ensures !Refused(old(Taken()), align / 4096, PageCount(length)) ==>
                && Granted(old(Taken()), align / 4096, PageCount(length), phys / 4096)
                && Taken() == Marked(old(Taken()), phys / 4096, PageCount(length), true)
                && phys % align == 0 && BytesFree(old(Taken()), phys, length)
                && Takes(old(Taken()), Taken(), phys, length)
      ensures (phys == 0 <==> Refused(old(Taken()), align / 4096, PageCount(length)))
              <==> || ServedIn(old(Taken()), align / 4096, align / 4096, PageCount(length))
                   || Over(old(Taken()), align / 4096, align / 4096)
                   || !RunFree(old(Taken()), 0, PageCount(length))
      ensures length > 0 ==>
                forall out :: ClaimStep(Claims(old(Taken()), out), Aligned(PageCount(length), align / 4096),
                  Claims(Taken(), Outstanding(out, !Refused(old(Taken()), align / 4096, PageCount(length)),
                                              phys / 4096, PageCount(length))))
    {
      hide PowerOfTwo, Visited, RunFree, FirstIn, Marked, PageCount, NextMultiple, Valid, Taken, FirstSeen, Proposed;
      hide Standing, Granted, Refused, Ends, StagesLeft, ClaimStep, Outstanding, ServedIn, Over, Takes, BytesFree;
      ghost var a, n, s := align / 4096, PageCount(length), Taken();
      MapSize();
      var index: nat := NextIndex(align / 4096, align);
      ghost var g := ScanFirst(s, a, n);
      EndsOneWay(s, a, n);
      ZeroGranted(s, a, n);
      while index <= spBitmap.Size()
        invariant Valid() && Taken() == s && Standing(s, a, n, g, index)
        decreases StagesLeft(g), |s| + 1 - index
      {
        var ok := TryFrame(index, length);
        if ok {
          ScanStops(s, a, n, g, index);
          phys := 4096 * index;
          assert phys / 4096 == index;
          ScaledMod(index, a);
          ClaimSteps(s, a, length, index);
          return;
        }
        g := ScanNext(s, a, n, g, index);
        index := NextIndex(index + 1, align);
      }
      ScanStops(s, a, n, g, index);
      phys := 0;
      ClaimSteps(s, a, length, 0);
    }

    lemma ClaimSteps(s: seq<bool>, a: nat, length: nat, p: nat)
      requires a > 0 && (Refused(s, a, PageCount(length)) || Granted(s, a, PageCount(length), p))
      ensures var n, ok := PageCount(length), !Refused(s, a, PageCount(length));
              && (ok ==> p + n <= |s|)
              && (length > 0 ==>
                    forall out :: ClaimStep(Claims(s, out), Aligned(n, a),
                      Claims(if ok then Marked(s, p, n, true) else s, Outstanding(out, ok, p, n))))
    {
      hide Granted, Refused, ClaimStep;
      EndsOneWay(s, a, PageCount(length));
      if length > 0 {
        AlignedSteps(s, a, PageCount(length), p);
      }
    }

    lemma MapSize()
      requires Valid()
      ensures |Taken()| == spBitmap.Size() >= 8
    {
    }

    /** The index to try next: from the first frame seen free at `from` or after. */
    method NextIndex(from: nat, align: nat) returns (index: nat)
      requires Valid()
      requires 4096 <= align < 0x1_0000_0000 && PowerOfTwo(align) && align % 4096 == 0
      requires frames + align / 4096 <= 0x10_0000
      ensures index == Proposed(FirstSeen(Taken(), from), align / 4096)
    {
      hide Unpack, FirstIn, AlignedIndex, NextMultiple, PowerOfTwo;
      ghost var s := Taken();
      var f := spBitmap.GetIndexOf(false, from);
      assert f == FirstSeen(s, from);
      if f == -1 {
        AlignedIndexLost(align / 4096);
      } else {
        AlignedIndexFound(f, align / 4096);
      }
      index := AlignedIndex(f, align);
    }

    /** `tryAllocate` at the address of a frame. */
    method TryFrame(index: nat, length: nat) returns (ok: bool)
      requires Valid()
      modifies spBitmap.memory
      ensures Valid()
      ensures ok ==> BytesFree(old(Taken()), 4096 * index, length) && Takes(old(Taken()), Taken(), 4096 * index, length)
      ensures ok <==> RunFree(old(Taken()), index, PageCount(length))
      ensures Taken() == if ok then Marked(old(Taken()), index, PageCount(length), true) else old(Taken())
    {
      hide Marked, Unpack, PageCount, Takes, BytesFree;
      assert 4096 * index / 4096 == index && 4096 * index % 4096 == 0;
      ghost var s := Taken();
      ok := TryAllocate(4096 * index, length);
      if ok {
        FramesKept(s, index, PageCount(length));
      }
    }

    lemma FramesKept(s: seq<bool>, p: nat, n: nat)
      requires p + n <= |s| && forall k :: frames <= k < |s| ==> s[k]
      ensures forall k :: frames <= k < |s| ==> Marked(s, p, n, true)[k]
    {
    }

    /** `allocateFixed`: 0 reports failure. */
    method AllocateFixed(phys: nat, length: nat) returns (r: nat)
      requires phys % 4096 == 0
      modifies spBitmap.memory
      ensures RunFree(old(Taken()), phys / 4096, PageCount(length)) ==>
                r == phys && Taken() == Marked(old(Taken()), phys / 4096, PageCount(length), true)
      ensures !RunFree(old(Taken()), phys / 4096, PageCount(length)) ==> r == 0 && Taken() == old(Taken())
      ensures RunFree(old(Taken()), phys / 4096, PageCount(length))
              <==> BytesFree(old(Taken()), phys, length)
      ensures RunFree(old(Taken()), phys / 4096, PageCount(length)) ==> Takes(old(Taken()), Taken(), phys, length)
      ensures length > 0 ==>
                forall out :: ClaimStep(Claims(old(Taken()), out), Fixed(phys / 4096, PageCount(length)),
                  Claims(Taken(), Outstanding(out, RunFree(old(Taken()), phys / 4096, PageCount(length)),
                                              phys / 4096, PageCount(length))))
    {
      hide Takes, BytesFree, Marked, PageCount, RunFree;
      PageCountIs(length);
      var ok := TryAllocate(phys, length);
      r := if ok then phys else 0;
    }

    /** `free`; frames past the end of the map halt the kernel. */
    method Free(phys: nat, length: nat)
      requires phys / 4096 + PageCount(length) <= spBitmap.Size()
      modifies spBitmap.memory
      ensures Taken() == Marked(old(Taken()), phys / 4096, PageCount(length), false)
      ensures Gives(old(Taken()), Taken(), phys - phys % 4096, length)
      ensures forall out: map<nat, nat> :: phys / 4096 in out && out[phys / 4096] == PageCount(length) ==>
                ClaimStep(Claims(old(Taken()), out), GiveBack(phys / 4096), Claims(Taken(), out - {phys / 4096}))
    {
      hide Gives;
      RunBytes(Taken(), phys, length);
      SetRun(phys / 4096, PageCount(length), false);
    }

    /** `setRegion`: the length is decremented before each page, so the last page is left out. */
    method SetRegion(start: nat, end: nat, value: bool)
      requires start % 4096 == 0 && start < end - end % 4096 && end / 4096 <= spBitmap.Size()
      modifies spBitmap.memory
      ensures Taken() == Marked(old(Taken()), start / 4096, end / 4096 - start / 4096 - 1, value)
    {
      var from, length := start, end - end % 4096 - start;
      length := length - 4096;
      ghost var index, total, done := start / 4096, end / 4096 - start / 4096, 0;
      while length != 0
        invariant done < total && length == 4096 * (total - done - 1) && from == 4096 * (index + done)
        invariant Taken() == Marked(old(Taken()), index, done, value)
        decreases length
      {
        spBitmap.Set(from / 4096, value);
        from := from + 4096;
        done := done + 1;
        length := length - 4096;
      }
    }
  }
}
