/** The ten temporary mapping slots through which x86 reaches its page structures.

  A slot is zero, or holds a page address with the flags present, writable and global. */
module TempSlots {
  import opened Entries

  function SlotEntry(page: nat): nat {
    4096 * page + 0x103
  }

  /** Pages held by the slots. */
  function Held(slots: seq<nat>): set<nat> {
    if slots == [] then {}
    else if slots[0] == 0 then Held(slots[1..])
    else Held(slots[1..]) + {FrameOf(slots[0])}
  }

  /** Every slot in use holds a page entry, and no page is held twice. */
  ghost predicate SlotsOk(slots: seq<nat>) {
    slots == [] ||
    (SlotsOk(slots[1..])
     && (slots[0] != 0 ==> slots[0] == SlotEntry(FrameOf(slots[0])) && FrameOf(slots[0]) !in Held(slots[1..])))
  }

  lemma SlotEntryIs(page: nat)
    ensures SlotEntry(page) != 0 && Present(SlotEntry(page)) && FrameOf(SlotEntry(page)) == page
  {
    LowFlags(page, 0x103);
  }

  /** A window is present, writable and global. */
  lemma SlotBits(page: nat)
    ensures SlotEntry(page) == 4096 * page + 1 + 2 + 0x100
  {
  }

  lemma {:induction false} SlotHolds(slots: seq<nat>, i: nat)
    requires i < |slots|
    ensures slots[i] != 0 ==> FrameOf(slots[i]) in Held(slots)
    ensures SlotsOk(slots) && slots[i] != 0 ==> slots[i] == SlotEntry(FrameOf(slots[i]))
  {
    hide FrameOf;
    if i == 0 {
    } else {
      SlotHolds(slots[1..], i - 1);
    }
  }

  lemma {:induction false} HeldSomewhere(slots: seq<nat>, page: nat) returns (i: nat)
    requires page in Held(slots)
    ensures i < |slots| && slots[i] != 0 && FrameOf(slots[i]) == page
  {
    hide FrameOf;
    if slots[0] != 0 && FrameOf(slots[0]) == page {
      i := 0;
    } else {
      i := HeldSomewhere(slots[1..], page);
      i := i + 1;
    }
  }

  /** A page sits in one slot only. */
  lemma {:induction false} HeldOnce(slots: seq<nat>, i: nat, j: nat)
    requires SlotsOk(slots) && i < j < |slots| && slots[i] != 0 && slots[j] != 0
    ensures FrameOf(slots[i]) != FrameOf(slots[j])
  {
    hide FrameOf;
    if i > 0 {
      HeldOnce(slots[1..], i - 1, j - 1);
    } else {
      SlotHolds(slots[1..], j - 1);
    }
  }

  /** Filling a free slot adds its page. */
  lemma {:induction false} FillSlot(slots: seq<nat>, i: nat, page: nat)
    requires SlotsOk(slots) && i < |slots| && slots[i] == 0 && page !in Held(slots)
    ensures SlotsOk(slots[i := SlotEntry(page)]) && Held(slots[i := SlotEntry(page)]) == Held(slots) + {page}
  {
    hide FrameOf, SlotEntry;
    SlotEntryIs(page);
    var slots' := slots[i := SlotEntry(page)];
    if i > 0 {
      FillSlot(slots[1..], i - 1, page);
      assert slots'[1..] == slots[1..][i - 1 := SlotEntry(page)];
    } else {
      assert slots'[1..] == slots[1..];
    }
  }

  /** Clearing a slot releases its page and no other. */
  lemma {:induction false} ClearSlot(slots: seq<nat>, i: nat)
    requires SlotsOk(slots) && i < |slots| && slots[i] != 0
    ensures SlotsOk(slots[i := 0]) && Held(slots[i := 0]) == Held(slots) - {FrameOf(slots[i])}
  {
    hide FrameOf, SlotEntry;
    var slots' := slots[i := 0];
    if i > 0 {
      ClearSlot(slots[1..], i - 1);
      assert slots'[1..] == slots[1..][i - 1 := 0];
      SlotHolds(slots[1..], i - 1);
    } else {
      assert slots'[1..] == slots[1..];
    }
  }

  /** There is a free slot exactly when fewer pages are held than there are slots. */
  lemma {:induction false} FreeSlot(slots: seq<nat>)
    requires SlotsOk(slots)
    ensures |Held(slots)| <= |slots|
    ensures |Held(slots)| < |slots| <==> exists i :: 0 <= i < |slots| && slots[i] == 0
  {
    hide FrameOf;
    if slots == [] {
    } else {
      FreeSlot(slots[1..]);
      if i :| 0 <= i < |slots[1..]| && slots[1..][i] == 0 {
        assert slots[i + 1] == 0;
      }
    }
  }
}
