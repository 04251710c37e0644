/** Page-table entries: a frame address, and flags in the low twelve bits (bit 0: present, bit 7:
  large page), as sections 4.3 and 4.5 of the Intel SDM, Volume 3A, have them. */
module Entries {

  predicate Present(e: nat) {
    e % 2 == 1
  }

  predicate Writable(e: nat) {
    e / 2 % 2 == 1
  }

  predicate Large(e: nat) {
    e / 128 % 2 == 1
  }

  function FrameOf(e: nat): nat {
    e / 4096
  }

  /** Entry for a new table: its frame, present and writable. */
  function TableEntry(frame: nat): nat {
    4096 * frame + 3
  }

  /** Flags below 4096 and a frame number do not disturb each other. */
  lemma LowFlags(frame: nat, flags: nat)
    requires flags < 4096
    ensures FrameOf(4096 * frame + flags) == frame
    ensures Present(4096 * frame + flags) == Present(flags)
    ensures Large(4096 * frame + flags) == Large(flags)
  {
    EvenPlus(2048 * frame, flags);
    EvenPlus(16 * frame, flags / 128);
    assert (4096 * frame + flags) / 128 == 32 * frame + flags / 128;
  }

  lemma EvenPlus(k: nat, x: nat)
    ensures (2 * k + x) % 2 == x % 2
  {
  }

  // ----- leaf entries

  /** `x | y`, bit by bit. */
  function Or(x: nat, y: nat): nat {
    if x == 0 && y == 0 then 0 else 2 * Or(x / 2, y / 2) + if x % 2 == 1 || y % 2 == 1 then 1 else 0
  }

  /** `flags | PAGE_PRESENT`. */
  function WithPresent(flags: nat): nat {
    if flags % 2 == 1 then flags else flags + 1
  }

  /** The entry `map` writes for a page: `phys | PAGE_PRESENT | flags`. */
  function LeafFor(phys: nat, flags: nat): nat {
    Or(phys, WithPresent(flags))
  }

  function Halved(x: nat, k: nat): nat {
    if k == 0 then x else Halved(x / 2, k - 1)
  }

  /** Bit `k` of `x` is set. */
  predicate Bit(x: nat, k: nat) {
    Halved(x, k) % 2 == 1
  }

  /** The entry has the bits of the address and those of the flags, bit 0 besides, and no other. */
  lemma LeafForBits(phys: nat, flags: nat, k: nat)
    ensures Bit(LeafFor(phys, flags), k) <==> Bit(phys, k) || Bit(flags, k) || k == 0
  {
    hide Or;
    OrHalved(phys, WithPresent(flags), k);
    OrFirst(Halved(phys, k), Halved(WithPresent(flags), k));
    if k == 0 {
    } else {
      assert WithPresent(flags) / 2 == flags / 2;
    }
  }

  lemma {:induction false} OrFirst(x: nat, y: nat)
    ensures Or(x, y) % 2 == 1 <==> x % 2 == 1 || y % 2 == 1
  {
    var rest := Or(x / 2, y / 2);
    EvenPlus(rest, if x % 2 == 1 || y % 2 == 1 then 1 else 0);
    if x == 0 && y == 0 {
    } else {
      assert Or(x, y) == 2 * rest + if x % 2 == 1 || y % 2 == 1 then 1 else 0;
    }
  }

  /** Bits 0, 1 and 7 as remainders: present, writable, large. */
  lemma EntryBits(e: nat)
    ensures Present(e) <==> Bit(e, 0)
    ensures Writable(e) <==> Bit(e, 1)
    ensures Large(e) <==> Bit(e, 7)
  {
    Bit7(e);
    HalvedNone(e / 2);
    assert Halved(e, 1) == Halved(e / 2, 0);
  }

  function Doubled(x: nat, k: nat): nat {
    if k == 0 then x else 2 * Doubled(x, k - 1)
  }

  lemma {:induction false} OrHalved(x: nat, y: nat, k: nat)
    ensures Halved(Or(x, y), k) == Or(Halved(x, k), Halved(y, k))
    decreases k
  {
    if k == 0 {
    } else {
      assert Or(x, y) / 2 == Or(x / 2, y / 2);
      OrHalved(x / 2, y / 2, k - 1);
    }
  }

  lemma {:induction false} OrNothing(x: nat)
    ensures Or(x, 0) == x
  {
    if x == 0 {
    } else {
      OrNothing(x / 2);
    }
  }

  lemma {:induction false} OrBelow(x: nat, y: nat, k: nat)
    requires y < Doubled(1, k)
    ensures Or(Doubled(x, k), y) == Doubled(x, k) + y
    decreases k
  {
    if k == 0 {
      OrNothing(x);
    } else {
      OrBelow(x, y / 2, k - 1);
    }
  }

  lemma Bit7(x: nat)
    ensures Large(x) <==> Halved(x, 7) % 2 == 1
  {
    hide Halved;
    HalvedNext(x, 1, 6);
    HalvedNext(x, 2, 5);
    HalvedNext(x, 4, 4);
    HalvedNext(x, 8, 3);
    HalvedNext(x, 16, 2);
    HalvedNext(x, 32, 1);
    HalvedNext(x, 64, 0);
    HalvedNone(x / 128);
  }

  lemma HalvedNext(x: nat, m: nat, k: nat)
    requires m == 1 || m == 2 || m == 4 || m == 8 || m == 16 || m == 32 || m == 64
    ensures Halved(x / m, k + 1) == Halved(x / (2 * m), k)
  {
    assert x / m / 2 == x / (2 * m);
  }

  lemma HalvedNone(x: nat)
    ensures Halved(x, 0) == x
  {
  }

  lemma DoubledFour(x: nat, k: nat)
    ensures Doubled(x, k + 4) == 16 * Doubled(x, k)
  {
    assert Doubled(x, k + 2) == 4 * Doubled(x, k);
    assert Doubled(x, k + 4) == 4 * Doubled(x, k + 2);
  }

  lemma DoubledPage(x: nat)
    ensures Doubled(x, 12) == 4096 * x
  {
    DoubledFour(x, 8);
    DoubledFour(x, 4);
    DoubledFour(x, 0);
  }

  /** Whatever the address, a leaf entry is present, and large if the flags ask for that. */
  lemma LeafForIs(phys: nat, flags: nat)
    ensures Present(LeafFor(phys, flags))
    ensures Large(flags) ==> Large(LeafFor(phys, flags))
  {
    hide Large, Halved, Or;
    var f := WithPresent(flags);
    OrFirst(phys, f);
    OrFirst(Halved(phys, 7), Halved(f, 7));
    OrHalved(phys, f, 7);
    Bit7(LeafFor(phys, flags));
    Bit7(f);
    SameLarge(flags);
  }

  lemma SameLarge(flags: nat)
    ensures Large(WithPresent(flags)) == Large(flags)
  {
    if flags % 2 == 0 {
      var half := flags / 2;
      assert flags == 2 * half && (flags + 1) / 2 == half;
      assert (flags + 1) / 2 / 64 == (flags + 1) / 128 && flags / 2 / 64 == flags / 128;
    }
  }

  /** For an aligned address and flags in the low bits the parts stay apart: the address, and the
    flags with bit 0 set. */
  lemma LeafForParts(phys: nat, flags: nat)
    requires phys % 4096 == 0 && flags < 4096
    ensures var e := LeafFor(phys, flags);
            && 4096 * FrameOf(e) == e - e % 4096 == phys && FrameOf(e) == phys / 4096
            && e % 4096 == if flags % 2 == 1 then flags else flags + 1
  {
    hide Or;
    var frame := phys / 4096;
    DoubledPage(frame);
    DoubledPage(1);
    OrBelow(frame, WithPresent(flags), 12);
    LowFlags(frame, WithPresent(flags));
  }
}
