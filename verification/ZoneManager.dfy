/** The table of virtual address zones. */
module ZoneManagerModel {
  import opened Options

  /** A slot; start and end both zero mark it free.  `use` says an allocator took the zone. */
  datatype Zone = Zone(start: nat, end: nat, use: bool)

  predicate Free(z: Zone) {
    z.start == 0 && z.end == 0
  }

  /** The test of `define` on a zone already there. */
  predicate Clash(z: Zone, start: nat, end: nat) {
    (z.start >= start && z.start < end) || (z.end > start && z.end <= end)
  }

  predicate Disjoint(z: Zone, start: nat, end: nat) {
    z.end <= start || end <= z.start
  }

  /** [start, end) lies strictly inside `z`, touching neither of its ends. */
  predicate Inside(z: Zone, start: nat, end: nat) {
    z.start < start && end < z.end
  }

  /** The test finds every overlap except one: a new zone strictly inside an old one passes. */
  lemma ClashIsOverlap(z: Zone, start: nat, end: nat)
    requires z.start < z.end && start < end
    ensures Clash(z, start, end) <==> z.start < end && start < z.end && !(z.start < start && end < z.end)
    ensures Clash(z, start, end) <==> !Disjoint(z, start, end) && !Inside(z, start, end)
  {
  }

  ghost predicate Clashes(zones: seq<Zone>, start: nat, end: nat) {
    exists i :: 0 <= i < |zones| && !Free(zones[i]) && Clash(zones[i], start, end)
  }

  ghost predicate Room(zones: seq<Zone>) {
    exists i :: 0 <= i < |zones| && zones[i].start == 0 && zones[i].end == 0
  }

  /** No zone overlaps [start, end), except one that has it strictly inside. */
  ghost predicate NoOverlap(zones: seq<Zone>, start: nat, end: nat) {
    forall i :: 0 <= i < |zones| ==>
      zones[i].end <= start || end <= zones[i].start || (zones[i].start < start && end < zones[i].end)
  }

  lemma ClashesIs(zones: seq<Zone>, start: nat, end: nat)
    requires start < end && forall i :: 0 <= i < |zones| && !Free(zones[i]) ==> zones[i].start < zones[i].end
    ensures Clashes(zones, start, end) <==> !NoOverlap(zones, start, end)
  {
    forall i | 0 <= i < |zones| && !Free(zones[i])
      ensures Clash(zones[i], start, end) <==> !(zones[i].end <= start || end <= zones[i].start
                                                 || (zones[i].start < start && end < zones[i].end))
    {
      ClashIsOverlap(zones[i], start, end);
    }
  }

  /** `stamps[i]` is the time at which zone `i` was defined.  Two zones are disjoint, or the
    later one lies strictly inside the earlier one. */
  ghost predicate Nested(zones: seq<Zone>, stamps: seq<nat>) {
    && |stamps| == |zones|
    && (forall i :: 0 <= i < |zones| && !Free(zones[i]) ==> zones[i].start < zones[i].end)
    && (forall i, j :: 0 <= i < |zones| && 0 <= j < |zones| && i != j && !Free(zones[i]) && !Free(zones[j]) ==>
          stamps[i] != stamps[j])
    && (forall i, j :: 0 <= i < |zones| && 0 <= j < |zones| && !Free(zones[i]) && !Free(zones[j])
                       && stamps[i] < stamps[j] ==>
          Disjoint(zones[i], zones[j].start, zones[j].end) || Inside(zones[i], zones[j].start, zones[j].end))
  }

  datatype Table = Table(zones: seq<Zone>, stamps: seq<nat>, clock: nat)

  ghost predicate Sound(t: Table) {
    Nested(t.zones, t.stamps) && forall i :: 0 <= i < |t.zones| && !Free(t.zones[i]) ==> t.stamps[i] < t.clock
  }

  function Put(t: Table, i: nat, start: nat, end: nat): Table
    requires i < |t.zones| == |t.stamps|
  {
    Table(t.zones[i := Zone(start, end, t.zones[i].use)], t.stamps[i := t.clock], t.clock + 1)
  }

  function Cleared(t: Table, i: nat): Table
    requires i < |t.zones|
  {
    t.(zones := t.zones[i := Zone(0, 0, t.zones[i].use)])
  }

  /** `Use`: an allocator takes the zone in slot `i`; a zone marked as used halts it. */
  datatype Op = Define(start: nat, end: nat) | Remove(i: nat) | Use(i: nat)

  ghost predicate Step(t: Table, op: Op, t': Table) {
    |t.zones| == |t.stamps| &&
    match op
    case Define(start, end) =>
      if Clashes(t.zones, start, end) || forall i :: 0 <= i < |t.zones| ==> !Free(t.zones[i]) then t' == t
      else exists i :: 0 <= i < |t.zones| && Free(t.zones[i]) && t' == Put(t, i, start, end)
    case Remove(i) => i < |t.zones| && t' == Cleared(t, i)
    case Use(i) => i < |t.zones| && !t.zones[i].use && t' == t.(zones := t.zones[i := t.zones[i].(use := true)])
  }

  lemma PutSound(t: Table, i: nat, start: nat, end: nat)
    requires Sound(t) && i < |t.zones| && Free(t.zones[i]) && start < end && !Clashes(t.zones, start, end)
    ensures Sound(Put(t, i, start, end))
  {
    forall j | 0 <= j < |t.zones| && !Free(t.zones[j])
      ensures Disjoint(t.zones[j], start, end) || Inside(t.zones[j], start, end)
    {
      ClashIsOverlap(t.zones[j], start, end);
    }
  }

  lemma RemarkedSound(t: Table, i: nat, z: Zone)
    requires Sound(t) && i < |t.zones| && (Free(z) || (z.start == t.zones[i].start && z.end == t.zones[i].end))
    ensures Sound(t.(zones := t.zones[i := z]))
  {
  }

  lemma StepNests(t: Table, op: Op, t': Table)
    requires Sound(t) && Step(t, op, t') && (op.Define? ==> op.start < op.end)
    ensures Sound(t')
  {
    hide Sound, Clashes;
    match op
    case Define(start, end) =>
      if t' != t {
        var i: nat :| i < |t.zones| && Free(t.zones[i]) && t' == Put(t, i, start, end);
        PutSound(t, i, start, end);
      }
    case Remove(i) => RemarkedSound(t, i, Zone(0, 0, t.zones[i].use));
    case Use(i) => RemarkedSound(t, i, t.zones[i].(use := true));
  }

  /** Over any run of definitions, removals and uses of non-empty zones no two zones partly overlap:
    they are disjoint or the later one lies strictly inside the earlier. */
  lemma {:induction false} ZonesNest(ts: seq<Table>, ops: seq<Op>, k: nat)
    requires |ts| == |ops| + 1 && k < |ts| && Sound(ts[0])
    requires forall j :: 0 <= j < |ops| ==> Step(ts[j], ops[j], ts[j + 1])
    requires forall j :: 0 <= j < |ops| && ops[j].Define? ==> ops[j].start < ops[j].end
    ensures Sound(ts[k])
  {
    if k == 0 {
    } else {
      ZonesNest(ts, ops, k - 1);
      StepNests(ts[k - 1], ops[k - 1], ts[k]);
    }
  }

  /** A zone stands in its slot, bounds and all, until that slot is removed. */
  ghost predicate Stands(t: Table, i: nat, start: nat, end: nat) {
    i < |t.zones| && t.zones[i].start == start && t.zones[i].end == end
  }

  /** A definition that overlaps [start, end), and does not lie strictly inside it, is refused. */
  ghost predicate Guards(t: Table, op: Op, t': Table, start: nat, end: nat) {
    (op.Define? && op.start < op.end
     && op.start < end && start < op.end && !(start < op.start && op.end < end)) ==> t' == t
  }

  lemma StandsOn(t: Table, op: Op, t': Table, i: nat, start: nat, end: nat)
    requires Step(t, op, t') && Stands(t, i, start, end) && start < end
    ensures op != Remove(i) ==> Stands(t', i, start, end)
    ensures Guards(t, op, t', start, end)
  {
    if op.Define? && op.start < op.end {
      ClashIsOverlap(t.zones[i], op.start, op.end);
      assert Clash(t.zones[i], op.start, op.end) ==> Clashes(t.zones, op.start, op.end);
    }
  }

  /** A successful definition holds until its slot is removed: all along the slot has the bounds asked
    for, and whatever overlaps them without lying strictly inside is refused. */
  lemma DefinedStands(ts: seq<Table>, ops: seq<Op>, a: nat) returns (i: nat)
    requires |ts| == |ops| + 1 && forall j :: 0 <= j < |ops| ==> Step(ts[j], ops[j], ts[j + 1])
    requires a < |ops| && ops[a].Define? && ops[a].start < ops[a].end && ts[a + 1] != ts[a]
    ensures i < |ts[a].zones| && ts[a].zones[i].start == 0 && ts[a].zones[i].end == 0
    ensures forall k :: a < k < |ts| && (forall j :: a < j < k ==> ops[j] != Remove(i)) ==>
              Stands(ts[k], i, ops[a].start, ops[a].end)
    ensures forall k :: a < k < |ops| && (forall j :: a < j < k ==> ops[j] != Remove(i)) ==>
              Guards(ts[k], ops[k], ts[k + 1], ops[a].start, ops[a].end)
  {
    hide Step, Stands, Guards;
    i := PutSlot(ts[a], ops[a], ts[a + 1]);
    forall k | a < k < |ts| && forall j :: a < j < k ==> ops[j] != Remove(i)
      ensures Stands(ts[k], i, ops[a].start, ops[a].end)
      ensures k < |ops| ==> Guards(ts[k], ops[k], ts[k + 1], ops[a].start, ops[a].end)
    {
      StandsUntil(ts, ops, a, i, k);
      if k < |ops| {
        StandsOn(ts[k], ops[k], ts[k + 1], i, ops[a].start, ops[a].end);
      }
    }
  }

  lemma PutSlot(t: Table, op: Op, t': Table) returns (i: nat)
    requires Step(t, op, t') && op.Define? && t' != t
    ensures i < |t.zones| && t.zones[i].start == 0 && t.zones[i].end == 0 && Stands(t', i, op.start, op.end)
  {
    i :| i < |t.zones| && Free(t.zones[i]) && t' == Put(t, i, op.start, op.end);
  }

  lemma {:induction false} StandsUntil(ts: seq<Table>, ops: seq<Op>, a: nat, i: nat, k: nat)
    requires |ts| == |ops| + 1 && forall j :: 0 <= j < |ops| ==> Step(ts[j], ops[j], ts[j + 1])
    requires a < k < |ts| && ops[a].Define? && ops[a].start < ops[a].end
    requires Stands(ts[a + 1], i, ops[a].start, ops[a].end) && forall j :: a < j < k ==> ops[j] != Remove(i)
    ensures Stands(ts[k], i, ops[a].start, ops[a].end)
  {
    hide Step, Stands;
    if k == a + 1 {
    } else {
      StandsUntil(ts, ops, a, i, k - 1);
      StandsOn(ts[k - 1], ops[k - 1], ts[k], i, ops[a].start, ops[a].end);
    }
  }

  /** The mark of a slot says that it was used at some time: neither removing a zone nor defining
    another in its slot clears it.  So over any run the zone in a slot, however fresh, can be given
    to an allocator if and only if no allocator had a zone in that slot before. */
  lemma {:induction false} MarkStays(ts: seq<Table>, ops: seq<Op>, k: nat, i: nat)
    requires |ts| == |ops| + 1 && k < |ts| && i < |ts[0].zones| == |ts[0].stamps| && !ts[0].zones[i].use
    requires forall j :: 0 <= j < |ops| ==> Step(ts[j], ops[j], ts[j + 1])
    ensures |ts[k].zones| == |ts[0].zones| == |ts[k].stamps|
    ensures ts[k].zones[i].use <==> exists j :: 0 <= j < k && ops[j] == Use(i)
  {
    if k == 0 {
    } else {
      MarkStays(ts, ops, k - 1, i);
      assert Step(ts[k - 1], ops[k - 1], ts[k]);
    }
  }

  /** A zone used, removed and defined again is marked before any allocator has it. */
  lemma MarkOutlives()
    ensures var t0 := Table([Zone(0x1000, 0x9000, false)], [0], 1);
            var t1 := Table([Zone(0x1000, 0x9000, true)], [0], 1);
            var t2 := Cleared(t1, 0);
            var t3 := Put(t2, 0, 0x4000, 0x5000);
            && Step(t0, Use(0), t1) && Step(t1, Remove(0), t2) && Step(t2, Define(0x4000, 0x5000), t3)
            && t3.zones[0].use && forall t :: !Step(t3, Use(0), t)
  {
    var t2 := Cleared(Table([Zone(0x1000, 0x9000, true)], [0], 1), 0);
    assert Free(t2.zones[0]);
  }

  /** Zones that do not merely touch but overlap can be defined: the second inside the first. */
  lemma NestedZoneAccepted()
    ensures var t := Table([Zone(0x1000, 0x9000, false), Zone(0, 0, false)], [0, 0], 1);
            Sound(t) && Step(t, Define(0x2000, 0x3000), Put(t, 1, 0x2000, 0x3000))
            && !Disjoint(t.zones[0], 0x2000, 0x3000)
  {
    var t := Table([Zone(0x1000, 0x9000, false), Zone(0, 0, false)], [0, 0], 1);
    assert Free(t.zones[1]);
  }

  class VirtualZoneManager {
    const zones: array<Zone>
    ghost var stamps: seq<nat>
    ghost var clock: nat

    ghost function View(): Table
      reads this, zones
    {
      Table(zones[..], stamps, clock)
    }

    constructor (zones: array<Zone>)
      requires forall i :: 0 <= i < zones.Length ==> Free(zones[i])
      ensures Sound(View()) && this.zones == zones
    {
      this.zones := zones;
      stamps, clock := seq(zones.Length, _ => 0), 0;
    }

    /** `define`: succeeds exactly when a slot is free and no zone clashes; the last free slot is
      taken. */
    method Define(start: nat, end: nat) returns (slot: Option<nat>)
      requires |stamps| == zones.Length
      modifies this`stamps, this`clock, zones
      ensures |stamps| == zones.Length && (old(Sound(View())) && start < end ==> Sound(View()))
      ensures Step(old(View()), Op.Define(start, end), View())
      ensures slot.Some? <==>
                !Clashes(old(zones[..]), start, end) && exists i :: 0 <= i < zones.Length && old(Free(zones[i]))
      ensures slot == None ==> View() == old(View())
      ensures slot.Some? ==>
                && slot.value < zones.Length && old(Free(zones[slot.value]))
                && (forall i :: slot.value < i < zones.Length ==> !old(Free(zones[i])))
                && View() == Put(old(View()), slot.value, start, end)
                && zones[slot.value].start == start && zones[slot.value].end == end
                && zones[slot.value].use == old(zones[slot.value]).use
                && old(zones[slot.value]).start == 0 && old(zones[slot.value]).end == 0
                && forall i :: 0 <= i < zones.Length && i != slot.value ==> zones[i] == old(zones[i])
      ensures start < end && old(Sound(View())) ==>
                (slot.Some? <==> Room(old(zones[..])) && NoOverlap(old(zones[..]), start, end))
    {
      if Sound(View()) && start < end {
        ClashesIs(zones[..], start, end);
      }
      slot := None;
      var i := 0;
      while i < zones.Length
        invariant i <= zones.Length && zones[..] == old(zones[..])
        invariant forall j :: 0 <= j < i && !Free(zones[j]) ==> !Clash(zones[j], start, end)
        invariant slot == None ==> forall j :: 0 <= j < i ==> !Free(zones[j])
        invariant slot.Some? ==> slot.value < i && Free(zones[slot.value])
                                 && forall j :: slot.value < j < i ==> !Free(zones[j])
      {
        if Free(zones[i]) {
          slot := Some(i);
        } else if Clash(zones[i], start, end) {
          assert Clashes(old(zones[..]), start, end);
          return None;
        }
        i := i + 1;
      }
      if slot.Some? {
        if Sound(View()) && start < end {
          PutSound(View(), slot.value, start, end);
        }
        zones[slot.value] := Zone(start, end, zones[slot.value].use);
        stamps, clock := stamps[slot.value := clock], clock + 1;
        assert View() == Put(old(View()), slot.value, start, end);
      }
    }

    /** `remove`: frees the slot; its `use` mark stays. */
    method Remove(i: nat)
      requires |stamps| == zones.Length && i < zones.Length
      modifies zones
      ensures (old(Sound(View())) ==> Sound(View())) && Step(old(View()), Op.Remove(i), View())
      ensures zones[..] == old(zones[..])[i := Zone(0, 0, old(zones[i]).use)]
    {
      if Sound(View()) {
        RemarkedSound(View(), i, Zone(0, 0, zones[i].use));
      }
      zones[i] := Zone(0, 0, zones[i].use);
      assert View() == Cleared(old(View()), i);
    }
  }
}
