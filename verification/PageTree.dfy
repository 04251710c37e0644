/** Page tables as a radix tree whose nodes are page frames.

  A path is the list of table indices of a virtual page, topmost first. */
module PageTree {
  import opened FrameMap
  import opened Options
  import opened Entries

  datatype Arch = X86 | X64

  function Radix(arch: Arch): nat {
    if arch == X86 then 1024 else 512
  }

  function Levels(arch: Arch): nat {
    if arch == X86 then 2 else 4
  }

  // ----- entries

  /** Height-1 tables hold leaves only; on x86_64 a height-2 entry may be a large leaf. */
  predicate Leaf(arch: Arch, height: nat, e: nat) {
    height <= 1 || (arch == X64 && height == 2 && Large(e))
  }

  predicate Child(arch: Arch, height: nat, e: nat) {
    Present(e) && !Leaf(arch, height, e)
  }

  lemma TableEntryIs(arch: Arch, frame: nat, height: nat)
    ensures Present(TableEntry(frame)) && FrameOf(TableEntry(frame)) == frame
    ensures height >= 2 ==> Child(arch, height, TableEntry(frame))
  {
    LowFlags(frame, 3);
  }

  // ----- the tree

  /** What a frame in use as a table is for: its height and the entry that points to it. */
  datatype Node = Node(height: nat, parent: nat, index: nat)

  /** Physical memory as frames of entries, the frame map, and the frames in use as tables. */
  datatype Mem = Mem(ram: seq<seq<nat>>, taken: seq<bool>, nodes: map<nat, Node>)

  function Entry(ram: seq<seq<nat>>, f: nat, i: nat): nat {
    if f < |ram| && i < |ram[f]| then ram[f][i] else 0
  }

  ghost predicate Shaped(arch: Arch, m: Mem) {
    && 8 <= |m.taken|
    && |m.ram| <= |m.taken|
    && (forall f :: 0 <= f < |m.ram| ==> |m.ram[f]| == Radix(arch))
    && (forall k :: |m.ram| <= k < |m.taken| ==> m.taken[k])
  }

  ghost predicate TablesTaken(arch: Arch, m: Mem) {
    forall f :: f in m.nodes ==>
      && 0 < f < |m.ram| && f < |m.taken| && m.taken[f] && 1 <= m.nodes[f].height <= Levels(arch)
  }

  /** Entries that are not present are zero.  Each child entry is that of a table, present and writable
    and nothing else, which names the entry back: no two entries share a table. */
  ghost predicate LinkedDown(arch: Arch, m: Mem) {
    forall f, i :: f in m.nodes && 0 <= i < Radix(arch) ==>
      var e := Entry(m.ram, f, i);
      && (!Present(e) ==> e == 0)
      && (Child(arch, m.nodes[f].height, e) ==>
            && e == TableEntry(FrameOf(e))
            && FrameOf(e) in m.nodes && m.nodes[FrameOf(e)] == Node(m.nodes[f].height - 1, f, i))
  }

  /** Every table below the top is pointed to by the entry it names. */
  ghost predicate LinkedUp(arch: Arch, m: Mem) {
    forall t :: t in m.nodes && m.nodes[t].height < Levels(arch) ==>
      var n := m.nodes[t];
      && n.parent in m.nodes && n.index < Radix(arch)
      && m.nodes[n.parent].height == n.height + 1
      && Child(arch, n.height + 1, Entry(m.ram, n.parent, n.index))
      && FrameOf(Entry(m.ram, n.parent, n.index)) == t
  }

  ghost predicate Inv(arch: Arch, m: Mem) {
    Shaped(arch, m) && TablesTaken(arch, m) && LinkedDown(arch, m) && LinkedUp(arch, m)
  }

  ghost predicate ValidPath(arch: Arch, path: seq<nat>) {
    forall k :: 0 <= k < |path| ==> path[k] < Radix(arch)
  }

  // ----- lookup

  /** A leaf entry counts if it is present. */
  function LeafValue(e: nat): Option<nat> {
    if Present(e) then Some(e) else None
  }

  /** What `getMappedAddr` answers: the address in the entry, or 0 for "not mapped". */
  function AddressOf(o: Option<nat>): nat {
    if o.Some? then o.value - o.value % 4096 else 0
  }

  /** The entry written for a page is a leaf that maps it, whatever the address and the flags. */
  lemma LeafEntry(arch: Arch, stop: nat, phys: nat, flags: nat)
    requires stop == 1 || (arch == X64 && stop == 2 && Large(flags))
    ensures var e := LeafFor(phys, flags);
            Present(e) && Leaf(arch, stop, e) && LeafValue(e) == Some(e)
  {
    LeafForIs(phys, flags);
  }

  /** The entry that maps a path, flags and all, starting from table `f` of height |path|. */
  function Lookup(arch: Arch, ram: seq<seq<nat>>, f: nat, path: seq<nat>): Option<nat>
    decreases path
  {
    if path == [] then None
    else
      var e := Entry(ram, f, path[0]);
      if Child(arch, |path|, e) then Lookup(arch, ram, FrameOf(e), path[1..]) else LeafValue(e)
  }

  /** The walk along `path` from table `f` comes to entry `i` of table `t`. */
  predicate Passes(arch: Arch, ram: seq<seq<nat>>, f: nat, path: seq<nat>, t: nat, i: nat)
    decreases path
  {
    path != [] &&
    ((f == t && path[0] == i)
     || (var e := Entry(ram, f, path[0]);
         Child(arch, |path|, e) && Passes(arch, ram, FrameOf(e), path[1..], t, i)))
  }

  /** The first `k` indices of two paths are the same. */
  predicate Agree(p: seq<nat>, q: seq<nat>, k: nat)
    decreases k
  {
    k == 0 || (p != [] && q != [] && p[0] == q[0] && Agree(p[1..], q[1..], k - 1))
  }

  lemma {:induction false} AgreeFully(p: seq<nat>, q: seq<nat>)
    requires |p| == |q|
    ensures Agree(p, q, |p|) <==> p == q
  {
    if p == [] {
    } else {
      AgreeFully(p[1..], q[1..]);
      assert p == [p[0]] + p[1..] && q == [q[0]] + q[1..];
    }
  }

  /** The table a child entry names. */
  lemma ChildOf(arch: Arch, m: Mem, f: nat, i: nat)
    requires Inv(arch, m) && f in m.nodes && i < Radix(arch)
    ensures m.nodes[f].height >= 1
    ensures var e := Entry(m.ram, f, i);
            && (!Present(e) ==> e == 0)
            && (Child(arch, m.nodes[f].height, e) ==>
                  FrameOf(e) in m.nodes && m.nodes[FrameOf(e)] == Node(m.nodes[f].height - 1, f, i))
  {
  }

  lemma {:induction false} PassesHeight(arch: Arch, m: Mem, f: nat, path: seq<nat>, t: nat, i: nat)
    requires Inv(arch, m) && f in m.nodes && m.nodes[f].height == |path| && ValidPath(arch, path)
    requires Passes(arch, m.ram, f, path, t, i)
    ensures t in m.nodes && 1 <= m.nodes[t].height <= |path| && i < Radix(arch)
    ensures m.nodes[t].height == |path| ==> f == t && path[0] == i
    decreases path
  {
    hide Child, FrameOf, Present, Radix, Levels;
    var e := Entry(m.ram, f, path[0]);
    if f == t && path[0] == i {
    } else {
      PassesHeight(arch, m, FrameOf(e), path[1..], t, i);
    }
  }

  /** Only one root and one run of indices lead to a given entry. */
  lemma {:induction false} PassesUnique(arch: Arch, m: Mem, f: nat, p: seq<nat>, g: nat, q: seq<nat>, t: nat, i: nat)
    requires Inv(arch, m) && f in m.nodes && g in m.nodes
    requires |p| == |q| == m.nodes[f].height == m.nodes[g].height
    requires ValidPath(arch, p) && ValidPath(arch, q)
    requires Passes(arch, m.ram, f, p, t, i) && Passes(arch, m.ram, g, q, t, i)
    ensures f == g && t in m.nodes && m.nodes[t].height <= |p|
    ensures Agree(p, q, |p| - m.nodes[t].height + 1)
    decreases p
  {
    hide Child, FrameOf, Present, Radix, Levels, Inv;
    PassesHeight(arch, m, f, p, t, i);
    PassesHeight(arch, m, g, q, t, i);
    if m.nodes[t].height == |p| {
      assert Agree(p[1..], q[1..], 0);
    } else {
      var e, e' := Entry(m.ram, f, p[0]), Entry(m.ram, g, q[0]);
      ChildOf(arch, m, f, p[0]);
      ChildOf(arch, m, g, q[0]);
      PassesUnique(arch, m, FrameOf(e), p[1..], FrameOf(e'), q[1..], t, i);
    }
  }

  /** Paths that agree down to `t` all come to the same entry of it. */
  lemma {:induction false} PassesPrefix(arch: Arch, m: Mem, f: nat, p: seq<nat>, q: seq<nat>, t: nat, i: nat)
    requires Inv(arch, m) && f in m.nodes && |p| == |q| == m.nodes[f].height
    requires ValidPath(arch, p) && ValidPath(arch, q)
    requires Passes(arch, m.ram, f, p, t, i)
    requires t in m.nodes && m.nodes[t].height <= |p|
    requires Agree(p, q, |p| - m.nodes[t].height + 1)
    ensures Passes(arch, m.ram, f, q, t, i)
    decreases p
  {
    hide Child, FrameOf, Present, Radix, Levels;
    PassesHeight(arch, m, f, p, t, i);
    if f == t && p[0] == i {
    } else {
      PassesHeight(arch, m, FrameOf(Entry(m.ram, f, p[0])), p[1..], t, i);
      PassesPrefix(arch, m, FrameOf(Entry(m.ram, f, p[0])), p[1..], q[1..], t, i);
    }
  }

  // ----- writing an entry

  function Put(s: seq<nat>, i: nat, e: nat): (r: seq<nat>)
    requires i < |s|
    ensures |r| == |s|
  {
    s[i := e]
  }

  function SetEntry(ram: seq<seq<nat>>, f: nat, i: nat, e: nat): (r: seq<seq<nat>>)
    ensures |r| == |ram|
    ensures forall g, j :: f < |ram| && i < |ram[f]| && 0 <= g && 0 <= j ==>
              Entry(r, g, j) == if g == f && j == i then e else Entry(ram, g, j)
    ensures forall g :: 0 <= g < |ram| ==> |r[g]| == |ram[g]|
  {
    if f < |ram| && i < |ram[f]| then ram[f := Put(ram[f], i, e)] else ram
  }

  function WriteEntry(m: Mem, f: nat, i: nat, e: nat): Mem {
    m.(ram := SetEntry(m.ram, f, i, e))
  }

  /** Entry `i` of table `t` is a leaf or absent, and so is `e`: writing `e` there changes no
    table. */
  ghost predicate LeafWrite(arch: Arch, m: Mem, t: nat, i: nat, e: nat) {
    && t in m.nodes && i < Radix(arch)
    && !Child(arch, m.nodes[t].height, Entry(m.ram, t, i))
    && !Child(arch, m.nodes[t].height, e) && (Present(e) || e == 0)
  }

  lemma LeafWriteDown(arch: Arch, m: Mem, t: nat, i: nat, e: nat)
    requires Inv(arch, m) && LeafWrite(arch, m, t, i, e)
    ensures LinkedDown(arch, WriteEntry(m, t, i, e))
  {
    hide Child, Present, FrameOf, Radix, Levels, Entry, LinkedUp;
  }

  lemma LeafWriteUp(arch: Arch, m: Mem, t: nat, i: nat, e: nat)
    requires Inv(arch, m) && LeafWrite(arch, m, t, i, e)
    ensures LinkedUp(arch, WriteEntry(m, t, i, e))
  {
    hide Child, Present, FrameOf, Radix, Levels, Entry, LinkedDown;
  }

  lemma LeafWriteInv(arch: Arch, m: Mem, t: nat, i: nat, e: nat)
    requires Inv(arch, m) && LeafWrite(arch, m, t, i, e)
    ensures Inv(arch, WriteEntry(m, t, i, e))
  {
    hide LinkedDown, LinkedUp, LeafWrite, Levels;
    LeafWriteDown(arch, m, t, i, e);
    LeafWriteUp(arch, m, t, i, e);
  }

  /** A leaf write changes the lookup of exactly the paths that come to it. */
  lemma {:induction false} LeafWriteLookup(arch: Arch, m: Mem, t: nat, i: nat, e: nat, f: nat, path: seq<nat>)
    requires Inv(arch, m) && LeafWrite(arch, m, t, i, e)
    requires f in m.nodes && m.nodes[f].height == |path| && ValidPath(arch, path)
    ensures Lookup(arch, SetEntry(m.ram, t, i, e), f, path)
            == if Passes(arch, m.ram, f, path, t, i) then LeafValue(e) else Lookup(arch, m.ram, f, path)
    decreases path
  {
    hide Child, Present, FrameOf, Radix, Levels, LeafValue, Inv;
    NodeFits(arch, m, f);
    ChildOf(arch, m, f, path[0]);
    NodeFits(arch, m, t);
    var d := Entry(m.ram, f, path[0]);
    if f == t && path[0] == i {
    } else if Child(arch, |path|, d) {
      LeafWriteLookup(arch, m, t, i, e, FrameOf(d), path[1..]);
    }
  }

  lemma NodeFits(arch: Arch, m: Mem, f: nat)
    requires Inv(arch, m) && f in m.nodes
    ensures 0 < f < |m.ram| <= |m.taken| && |m.ram[f]| == Radix(arch) && m.taken[f]
    ensures 1 <= m.nodes[f].height <= Levels(arch)
  {
  }

  // ----- making a table

  function EmptyTable(arch: Arch): (s: seq<nat>)
    ensures |s| == Radix(arch) && forall k :: 0 <= k < |s| ==> s[k] == 0
  {
    seq(Radix(arch), _ => 0)
  }

  /** Frame `p` becomes an empty table, entry `i` of table `f` pointing to it. */
  ghost function NewTable(arch: Arch, m: Mem, f: nat, i: nat, p: nat): Mem
    requires p < |m.ram| && p < |m.taken|
  {
    Mem(SetEntry(m.ram[p := EmptyTable(arch)], f, i, TableEntry(p)),
        m.taken[p := true],
        m.nodes[p := Node(if f in m.nodes && m.nodes[f].height > 0 then m.nodes[f].height - 1 else 0, f, i)])
  }

  /** A free frame can become the table for an absent entry of an inner table. */
  ghost predicate TableWanted(arch: Arch, m: Mem, f: nat, i: nat, p: nat) {
    && f in m.nodes && m.nodes[f].height >= 2 && i < Radix(arch) && !Present(Entry(m.ram, f, i))
    && 0 < p < |m.ram| && p < |m.taken| && !m.taken[p]
  }

  /** `m'` is `m` with the empty table `p` hung on entry `i` of table `f`. */
  ghost predicate Extends(arch: Arch, m: Mem, f: nat, i: nat, p: nat, m': Mem) {
    && f in m.nodes && m.nodes[f].height >= 2 && p !in m.nodes && p != f
    && |m'.ram| == |m.ram|
    && (forall g :: 0 <= g < |m.ram| ==> |m'.ram[g]| == Radix(arch))
    && (forall g, j :: 0 <= g && 0 <= j && g != p ==>
          Entry(m'.ram, g, j) == if g == f && j == i then TableEntry(p) else Entry(m.ram, g, j))
    && (forall j :: 0 <= j ==> Entry(m'.ram, p, j) == 0)
    && (forall g :: g in m.nodes ==> g in m'.nodes && m'.nodes[g] == m.nodes[g])
    && m'.nodes.Keys == m.nodes.Keys + {p}
    && m'.nodes[p] == Node(m.nodes[f].height - 1, f, i)
  }

  lemma NewTableExtends(arch: Arch, m: Mem, f: nat, i: nat, p: nat)
    requires Inv(arch, m) && TableWanted(arch, m, f, i, p)
    ensures Extends(arch, m, f, i, p, NewTable(arch, m, f, i, p))
  {
    hide TableEntry, Radix;
    var ram := m.ram[p := EmptyTable(arch)];
    forall g, j | 0 <= g && 0 <= j
      ensures Entry(ram, g, j) == if g == p then 0 else Entry(m.ram, g, j)
    {
    }
  }

  lemma ZeroEntry(arch: Arch, height: nat)
    ensures !Present(0) && !Child(arch, height, 0)
  {
  }

  lemma ExtendsDown(arch: Arch, m: Mem, f: nat, i: nat, p: nat, m': Mem)
    requires LinkedDown(arch, m) && Extends(arch, m, f, i, p, m')
    ensures LinkedDown(arch, m')
  {
    TableEntryIs(arch, p, m.nodes[f].height);
    ZeroEntry(arch, m.nodes[f].height - 1);
    hide Child, Present, FrameOf, Radix, Levels, Entry, TableEntry;
  }

  lemma ExtendsUp(arch: Arch, m: Mem, f: nat, i: nat, p: nat, m': Mem)
    requires LinkedUp(arch, m) && Extends(arch, m, f, i, p, m') && i < Radix(arch)
    requires !Present(Entry(m.ram, f, i))
    ensures LinkedUp(arch, m')
  {
    TableEntryIs(arch, p, m.nodes[f].height);
    assert !Child(arch, m.nodes[f].height, Entry(m.ram, f, i));
    hide Child, Present, FrameOf, Radix, Levels, Entry, TableEntry;
    forall t | t in m'.nodes && m'.nodes[t].height < Levels(arch)
      ensures var n := m'.nodes[t];
              && n.parent in m'.nodes && n.index < Radix(arch)
              && m'.nodes[n.parent].height == n.height + 1
              && Child(arch, n.height + 1, Entry(m'.ram, n.parent, n.index))
              && FrameOf(Entry(m'.ram, n.parent, n.index)) == t
    {
      if t != p {
        var n := m.nodes[t];
        assert n.parent in m.nodes;
      }
    }
  }

  lemma NewTableInv(arch: Arch, m: Mem, f: nat, i: nat, p: nat)
    requires Inv(arch, m) && TableWanted(arch, m, f, i, p)
    ensures Inv(arch, NewTable(arch, m, f, i, p))
  {
    hide LinkedDown, LinkedUp, Present, TableEntry, Radix, Levels;
    var m' := NewTable(arch, m, f, i, p);
    NewTableExtends(arch, m, f, i, p);
    ExtendsDown(arch, m, f, i, p, m');
    ExtendsUp(arch, m, f, i, p, m');
  }

  lemma {:induction false} NewTableLookup(arch: Arch, m: Mem, f: nat, i: nat, p: nat, g: nat, path: seq<nat>)
    requires Inv(arch, m) && TableWanted(arch, m, f, i, p)
    requires g in m.nodes && m.nodes[g].height == |path| && ValidPath(arch, path)
    ensures Lookup(arch, NewTable(arch, m, f, i, p).ram, g, path) == Lookup(arch, m.ram, g, path)
    decreases path
  {
    hide Child, Radix, Levels, Inv, TableEntry;
    NodeFits(arch, m, g);
    ChildOf(arch, m, g, path[0]);
    NewTableExtends(arch, m, f, i, p);
    var d := Entry(m.ram, g, path[0]);
    if g == f && path[0] == i {
      TableEntryIs(arch, p, |path|);
      ZeroEntry(arch, |path| - 1);
      ZeroEntry(arch, |path|);
      assert Entry(NewTable(arch, m, f, i, p).ram, p, path[1..][0]) == 0;
    } else if Child(arch, |path|, d) {
      NewTableLookup(arch, m, f, i, p, FrameOf(d), path[1..]);
    }
  }

  // ----- walking down, making tables where they are missing

  /** `n` single frames can be claimed one after the other. */
  ghost predicate CanTake(s: seq<bool>, n: nat)
    decreases n
  {
    n == 0 || (HasFrame(s) && LowestFrame(s) < |s| && CanTake(s[LowestFrame(s) := true], n - 1))
  }

  /** A run of free frames yields at least one single claim for every two of its frames: a claim
    leaves the frame before it free, but useless to later ones. */
  lemma {:induction false} RunTakes(s: seq<bool>, f: nat, n: nat)
    requires f >= 1 && f + 2 * n <= |s| && f + 2 * n <= |s| / 8 + 2
    requires forall k :: f <= k < f + 2 * n ==> !s[k]
    ensures CanTake(s, n)
    decreases n
  {
    hide LowestFrame;
    if n == 0 {
    } else {
      assert Follows(s, 1, f + 1);
      var p := LowestFrame(s);
      assert Follows(s, 1, p) && p <= f + 1;
      RunTakes(s[p := true], f + 2, n - 1);
    }
  }

  ghost function WithChild(arch: Arch, m: Mem, f: nat, i: nat): Mem {
    var p := LowestFrame(m.taken);
    if Present(Entry(m.ram, f, i)) || p >= |m.ram| || p >= |m.taken| then m else NewTable(arch, m, f, i, p)
  }

  /** Tables missing on the way from `f` down to height `stop`. */
  function Missing(ram: seq<seq<nat>>, f: nat, path: seq<nat>, stop: nat): nat
    decreases path
  {
    if |path| <= stop || path == [] then 0
    else
      var e := Entry(ram, f, path[0]);
      if Present(e) then Missing(ram, FrameOf(e), path[1..], stop) else |path| - stop
  }

  /** No leaf is in the way from `f` down to height `stop`, and the entry there is absent. */
  predicate Open(arch: Arch, ram: seq<seq<nat>>, f: nat, path: seq<nat>, stop: nat)
    decreases path
  {
    path != [] &&
    var e := Entry(ram, f, path[0]);
    !Present(e) || (|path| > stop && Child(arch, |path|, e) && Open(arch, ram, FrameOf(e), path[1..], stop))
  }

  /** The last entry that the walk down to height `stop` meets. */
  function EntryAt(arch: Arch, ram: seq<seq<nat>>, f: nat, path: seq<nat>, stop: nat): nat
    decreases path
  {
    if path == [] then 0
    else
      var e := Entry(ram, f, path[0]);
      if |path| > stop && Child(arch, |path|, e) then EntryAt(arch, ram, FrameOf(e), path[1..], stop) else e
  }

  /** The way down to height `stop` is open exactly if that entry is absent. */
  lemma {:induction false} OpenIffAbsent(arch: Arch, ram: seq<seq<nat>>, f: nat, path: seq<nat>, stop: nat)
    requires 1 <= stop <= |path|
    ensures Open(arch, ram, f, path, stop) <==> !Present(EntryAt(arch, ram, f, path, stop))
    decreases path
  {
    hide FrameOf, Leaf;
    var e := Entry(ram, f, path[0]);
    if |path| == stop || !Child(arch, |path|, e) {
    } else {
      OpenIffAbsent(arch, ram, FrameOf(e), path[1..], stop);
    }
  }

  /** Below an absent entry nothing is mapped. */
  lemma {:induction false} AbsentBelow(
      arch: Arch, ram: seq<seq<nat>>, f: nat, path: seq<nat>, q: seq<nat>, stop: nat)
    requires 1 <= stop <= |path| == |q| && Agree(path, q, |path| - stop + 1)
    requires !Present(EntryAt(arch, ram, f, path, stop))
    ensures Lookup(arch, ram, f, q) == None
    decreases path
  {
    hide FrameOf, Leaf;
    var e := Entry(ram, f, path[0]);
    if |path| == stop || !Child(arch, |path|, e) {
    } else {
      AbsentBelow(arch, ram, FrameOf(e), path[1..], q[1..], stop);
    }
  }

  /** The way to a page's lowest table entry is open exactly if the page is not mapped. */
  lemma {:induction false} OpenIffUnmapped(arch: Arch, m: Mem, f: nat, path: seq<nat>)
    requires Inv(arch, m) && f in m.nodes && m.nodes[f].height == |path| && ValidPath(arch, path)
    ensures Open(arch, m.ram, f, path, 1) <==> Lookup(arch, m.ram, f, path) == None
    decreases path
  {
    hide FrameOf, Radix, Levels, Inv;
    NodeFits(arch, m, f);
    ChildOf(arch, m, f, path[0]);
    var e := Entry(m.ram, f, path[0]);
    if !Child(arch, |path|, e) {
    } else {
      OpenIffUnmapped(arch, m, FrameOf(e), path[1..]);
    }
  }

  ghost function WithTables(arch: Arch, m: Mem, f: nat, path: seq<nat>, stop: nat): Mem
    decreases path
  {
    if |path| <= stop || path == [] then m
    else
      var m1 := WithChild(arch, m, f, path[0]);
      WithTables(arch, m1, FrameOf(Entry(m1.ram, f, path[0])), path[1..], stop)
  }

  /** The table at height `stop` on the path, once all tables are there. */
  ghost function TableFor(arch: Arch, m: Mem, f: nat, path: seq<nat>, stop: nat): nat
    decreases path
  {
    if |path| <= stop || path == [] then f
    else
      var m1 := WithChild(arch, m, f, path[0]);
      TableFor(arch, m1, FrameOf(Entry(m1.ram, f, path[0])), path[1..], stop)
  }

  /** The path can be mapped at height `stop` without halting. */
  ghost predicate Mappable(arch: Arch, m: Mem, f: nat, path: seq<nat>, stop: nat) {
    && Inv(arch, m) && f in m.nodes && m.nodes[f].height == |path| && ValidPath(arch, path)
    && 1 <= stop <= |path|
    && Open(arch, m.ram, f, path, stop)
    && CanTake(m.taken, Missing(m.ram, f, path, stop))
  }

  /** Tables and present entries of `m` are still there in `m'`, and no frame other than a table
    changed hands. */
  ghost predicate Keeps(m: Mem, m': Mem) {
    && |m'.ram| == |m.ram| && |m'.taken| == |m.taken|
    && (forall g :: g in m.nodes ==> g in m'.nodes && m'.nodes[g] == m.nodes[g])
    && (forall g, j :: g in m.nodes && 0 <= j && Present(Entry(m.ram, g, j)) ==>
          Entry(m'.ram, g, j) == Entry(m.ram, g, j))
    && Data(m') == Data(m)
  }

  /** Frames taken for something other than a table. */
  ghost function Data(m: Mem): set<nat> {
    set k | 0 <= k < |m.taken| && m.taken[k] && k !in m.nodes
  }

  lemma KeepsTransitive(m: Mem, m1: Mem, m2: Mem)
    requires Keeps(m, m1) && Keeps(m1, m2)
    ensures Keeps(m, m2)
  {
  }

  lemma FreeFrame(arch: Arch, m: Mem)
    requires Inv(arch, m) && HasFrame(m.taken)
    ensures 0 < LowestFrame(m.taken) < |m.ram| <= |m.taken| && !m.taken[LowestFrame(m.taken)]
  {
    var p := LowestFrame(m.taken);
    assert Follows(m.taken, 1, p);
    assert !m.taken[p];
  }

  lemma NewTableKeeps(arch: Arch, m: Mem, f: nat, i: nat, p: nat)
    requires Inv(arch, m) && TableWanted(arch, m, f, i, p)
    ensures Keeps(m, NewTable(arch, m, f, i, p))
  {
    hide Present, FrameOf, Radix, Levels, Entry, TableEntry;
    NewTableExtends(arch, m, f, i, p);
    assert Data(NewTable(arch, m, f, i, p)) == Data(m);
  }

  lemma WithChildKeeps(arch: Arch, m: Mem, f: nat, path: seq<nat>, stop: nat)
    requires Mappable(arch, m, f, path, stop) && |path| > stop
    ensures var m1 := WithChild(arch, m, f, path[0]);
            var c := FrameOf(Entry(m1.ram, f, path[0]));
            && Keeps(m, m1) && Mappable(arch, m1, c, path[1..], stop)
            && Present(Entry(m1.ram, f, path[0])) && Child(arch, |path|, Entry(m1.ram, f, path[0]))
            && (m1 == m || (TableWanted(arch, m, f, path[0], LowestFrame(m.taken))
                            && m1 == NewTable(arch, m, f, path[0], LowestFrame(m.taken))))
  {
    hide Child, Radix, Levels, Inv, Entry, TableEntry, Present, Keeps;
    var i, p := path[0], LowestFrame(m.taken);
    ChildOf(arch, m, f, i);
    if Present(Entry(m.ram, f, i)) {
      KeepsSelf(m);
    } else {
      FreeFrame(arch, m);
      NewTableExtends(arch, m, f, i, p);
      NewTableInv(arch, m, f, i, p);
      NewTableKeeps(arch, m, f, i, p);
      TableEntryIs(arch, p, |path|);
      ZeroEntry(arch, |path| - 1);
      assert Entry(NewTable(arch, m, f, i, p).ram, p, path[1..][0]) == 0;
    }
  }

  lemma KeepsSelf(m: Mem)
    ensures Keeps(m, m)
  {
  }

  lemma {:induction false} WithTablesKeeps(arch: Arch, m: Mem, f: nat, path: seq<nat>, stop: nat)
    requires Mappable(arch, m, f, path, stop)
    ensures var m', t, i := WithTables(arch, m, f, path, stop), TableFor(arch, m, f, path, stop), path[|path| - stop];
            && Inv(arch, m') && Keeps(m, m')
            && t in m'.nodes && m'.nodes[t].height == stop
            && Passes(arch, m'.ram, f, path, t, i) && Entry(m'.ram, t, i) == 0
    decreases path
  {
    hide Child, FrameOf, Radix, Levels, Inv, Entry;
    ChildOf(arch, m, f, path[0]);
    if |path| == stop {
    } else {
      WithChildKeeps(arch, m, f, path, stop);
      var m1 := WithChild(arch, m, f, path[0]);
      var c := FrameOf(Entry(m1.ram, f, path[0]));
      WithTablesKeeps(arch, m1, c, path[1..], stop);
      KeepsTransitive(m, m1, WithTables(arch, m1, c, path[1..], stop));
    }
  }

  /** Of the tables made only the last one is as low as the leaf's table. */
  lemma {:induction false} NewestLowest(arch: Arch, m: Mem, f: nat, path: seq<nat>, stop: nat, t: nat)
    requires Mappable(arch, m, f, path, stop)
    requires t in WithTables(arch, m, f, path, stop).nodes && t !in m.nodes
    ensures WithTables(arch, m, f, path, stop).nodes[t].height >= stop
    ensures WithTables(arch, m, f, path, stop).nodes[t].height == stop ==> t == TableFor(arch, m, f, path, stop)
    decreases path
  {
    hide Child, FrameOf, Radix, Levels, Inv, Entry, Present, Open, CanTake, Missing;
    WithChildKeeps(arch, m, f, path, stop);
    var m1 := WithChild(arch, m, f, path[0]);
    var c := FrameOf(Entry(m1.ram, f, path[0]));
    if t in m1.nodes {
      NewTableExtends(arch, m, f, path[0], t);
      TableEntryIs(arch, t, |path|);
      WithTablesKeeps(arch, m1, c, path[1..], stop);
      if |path| == stop + 1 {
        assert c == t;
      }
    } else {
      NewestLowest(arch, m1, c, path[1..], stop, t);
    }
  }

  /** As many tables are made as are missing, at most one a level. */
  lemma {:induction false} WithTablesCount(arch: Arch, m: Mem, f: nat, path: seq<nat>, stop: nat)
    requires Mappable(arch, m, f, path, stop)
    ensures |WithTables(arch, m, f, path, stop).nodes| == |m.nodes| + Missing(m.ram, f, path, stop)
    ensures Missing(m.ram, f, path, stop) <= |path| - stop
    decreases path
  {
    hide Child, FrameOf, Radix, Levels, Inv, Entry, Present, Open, CanTake;
    if |path| == stop {
    } else {
      WithChildKeeps(arch, m, f, path, stop);
      var m1 := WithChild(arch, m, f, path[0]);
      var c := FrameOf(Entry(m1.ram, f, path[0]));
      WithTablesCount(arch, m1, c, path[1..], stop);
      if m1 != m {
        var p := LowestFrame(m.taken);
        NewTableExtends(arch, m, f, path[0], p);
        NewTableCount(arch, m, f, path[0], p, path[1..], stop);
      }
    }
  }

  lemma NewTableCount(arch: Arch, m: Mem, f: nat, i: nat, p: nat, path: seq<nat>, stop: nat)
    requires Inv(arch, m) && TableWanted(arch, m, f, i, p)
    ensures var m1 := NewTable(arch, m, f, i, p);
            && |m1.nodes| == |m.nodes| + 1
            && FrameOf(Entry(m1.ram, f, i)) == p
            && Missing(m1.ram, p, path, stop) == if |path| <= stop then 0 else |path| - stop
  {
    hide Child, FrameOf, Radix, Levels, LinkedDown, LinkedUp;
    NewTableExtends(arch, m, f, i, p);
    TableEntryIs(arch, p, 2);
    ZeroEntry(arch, 1);
    if |path| > stop && path != [] {
      assert Entry(NewTable(arch, m, f, i, p).ram, p, path[0]) == 0;
    }
    assert NewTable(arch, m, f, i, p).nodes.Keys == m.nodes.Keys + {p};
  }

  lemma {:induction false} WithTablesLookup(arch: Arch, m: Mem, f: nat, path: seq<nat>, stop: nat, g: nat, q: seq<nat>)
    requires Mappable(arch, m, f, path, stop)
    requires g in m.nodes && m.nodes[g].height == |q| && ValidPath(arch, q)
    ensures Lookup(arch, WithTables(arch, m, f, path, stop).ram, g, q) == Lookup(arch, m.ram, g, q)
    decreases path
  {
    hide Child, FrameOf, Radix, Levels, Inv, Entry, Present, Lookup, TableWanted;
    if |path| == stop {
    } else {
      WithChildKeeps(arch, m, f, path, stop);
      var m1 := WithChild(arch, m, f, path[0]);
      if m1 != m {
        NewTableLookup(arch, m, f, path[0], LowestFrame(m.taken), g, q);
      }
      WithTablesLookup(arch, m1, FrameOf(Entry(m1.ram, f, path[0])), path[1..], stop, g, q);
    }
  }

  // ----- mapping

  /** The memory after mapping `path` at height `stop` with leaf entry `e`. */
  ghost function Mapped(arch: Arch, m: Mem, f: nat, path: seq<nat>, stop: nat, e: nat): Mem
    requires 1 <= stop <= |path|
  {
    WriteEntry(WithTables(arch, m, f, path, stop), TableFor(arch, m, f, path, stop), path[|path| - stop], e)
  }

  /** A mapping that does not halt keeps the tree well formed and moves no frame other than the
    tables it makes, of which there are as many as were missing, at most one a level. */
  lemma MappedKeeps(arch: Arch, m: Mem, f: nat, path: seq<nat>, stop: nat, e: nat)
    requires Mappable(arch, m, f, path, stop) && Present(e) && Leaf(arch, stop, e)
    ensures var m' := Mapped(arch, m, f, path, stop, e);
            && Inv(arch, m') && Keeps(m, m')
            && |m'.nodes| == |m.nodes| + Missing(m.ram, f, path, stop) <= |m.nodes| + |path| - stop
  {
    hide Child, FrameOf, Radix, Levels, Inv, Missing;
    WithTablesCount(arch, m, f, path, stop);
    WithTablesKeeps(arch, m, f, path, stop);
    var m1, t, i := WithTables(arch, m, f, path, stop), TableFor(arch, m, f, path, stop), path[|path| - stop];
    LeafHere(arch, m, f, path, stop, e);
    LeafWriteInv(arch, m1, t, i, e);
    KeepsTransitive(m, m1, WriteEntry(m1, t, i, e)) by {
      AbsentWriteKeeps(arch, m1, t, i, e);
    }
  }

  lemma AbsentWriteKeeps(arch: Arch, m: Mem, t: nat, i: nat, e: nat)
    requires Inv(arch, m) && t in m.nodes && i < Radix(arch) && Entry(m.ram, t, i) == 0
    ensures Keeps(m, WriteEntry(m, t, i, e))
  {
    NodeFits(arch, m, t);
    assert Data(WriteEntry(m, t, i, e)) == Data(m);
  }

  lemma LeafHere(arch: Arch, m: Mem, f: nat, path: seq<nat>, stop: nat, e: nat)
    requires Mappable(arch, m, f, path, stop) && Present(e) && Leaf(arch, stop, e)
    ensures path[|path| - stop] < Radix(arch)
    ensures LeafWrite(arch, WithTables(arch, m, f, path, stop),
                      TableFor(arch, m, f, path, stop), path[|path| - stop], e)
  {
    hide Inv, Passes, FrameOf, Radix, Levels;
    WithTablesKeeps(arch, m, f, path, stop);
    ZeroEntry(arch, stop);
  }

  /** A root and path come to an entry exactly if the known ones do and agree down to it. */
  lemma PassesIffAgrees(arch: Arch, m: Mem, f: nat, path: seq<nat>, t: nat, i: nat, g: nat, q: seq<nat>)
    requires Inv(arch, m) && f in m.nodes && g in m.nodes
    requires m.nodes[f].height == m.nodes[g].height == |path| == |q| && ValidPath(arch, path) && ValidPath(arch, q)
    requires t in m.nodes && m.nodes[t].height <= |path| && Passes(arch, m.ram, f, path, t, i)
    ensures Passes(arch, m.ram, g, q, t, i) <==> g == f && Agree(q, path, |path| - m.nodes[t].height + 1)
  {
    hide Inv, Passes, Agree, Radix;
    if Passes(arch, m.ram, g, q, t, i) {
      PassesUnique(arch, m, g, q, f, path, t, i);
    } else if g == f && Agree(q, path, |path| - m.nodes[t].height + 1) {
      AgreeSymmetric(q, path, |path| - m.nodes[t].height + 1);
      PassesPrefix(arch, m, f, path, q, t, i);
    }
  }

  /** The mapping theorem: afterwards a root and path look up the new leaf if they are the
    mapped root and agree with the mapped path down to the leaf, and what they looked up
    before otherwise. */
  lemma MappedLookup(arch: Arch, m: Mem, f: nat, path: seq<nat>, stop: nat, e: nat, g: nat, q: seq<nat>)
    requires Mappable(arch, m, f, path, stop) && Present(e) && Leaf(arch, stop, e)
    requires g in m.nodes && m.nodes[g].height == |q| == |path| && ValidPath(arch, q)
    ensures Lookup(arch, Mapped(arch, m, f, path, stop, e).ram, g, q)
            == if g == f && Agree(q, path, |path| - stop + 1) then LeafValue(e) else Lookup(arch, m.ram, g, q)
  {
    hide Child, FrameOf, Radix, Levels, Inv, Entry, Present, Lookup, Passes, Open, Missing, CanTake;
    hide WithTables, TableFor, LeafWrite, Agree, Leaf, LeafValue, ValidPath;
    WithTablesKeeps(arch, m, f, path, stop);
    var m1, t, i := WithTables(arch, m, f, path, stop), TableFor(arch, m, f, path, stop), path[|path| - stop];
    LeafHere(arch, m, f, path, stop, e);
    assert g in m1.nodes && m1.nodes[g] == m.nodes[g] && f in m1.nodes && m1.nodes[f] == m.nodes[f];
    LeafWriteLookup(arch, m1, t, i, e, g, q);
    WithTablesLookup(arch, m, f, path, stop, g, q);
    PassesIffAgrees(arch, m1, f, path, t, i, g, q);
  }

  lemma {:induction false} AgreeSymmetric(p: seq<nat>, q: seq<nat>, k: nat)
    requires Agree(p, q, k)
    ensures Agree(q, p, k)
    decreases k
  {
    if k == 0 {
    } else {
      AgreeSymmetric(p[1..], q[1..], k - 1);
    }
  }

  // ----- unmapping

  /** Clearing the leaf entry a path comes to unmaps that path and no other. */
  lemma ClearedLookup(arch: Arch, m: Mem, f: nat, path: seq<nat>, t: nat, i: nat, g: nat, q: seq<nat>)
    requires Inv(arch, m) && f in m.nodes && m.nodes[f].height == |path| && ValidPath(arch, path)
    requires Passes(arch, m.ram, f, path, t, i) && t in m.nodes && m.nodes[t].height == 1
    requires g in m.nodes && m.nodes[g].height == |q| == |path| && ValidPath(arch, q)
    ensures i < Radix(arch) && Inv(arch, WriteEntry(m, t, i, 0))
    ensures Lookup(arch, WriteEntry(m, t, i, 0).ram, g, q)
            == if g == f && q == path then None else Lookup(arch, m.ram, g, q)
  {
    hide Child, FrameOf, Radix, Levels, Inv, Entry, Present, Lookup, Passes;
    PassesHeight(arch, m, f, path, t, i);
    ClearIsLeafWrite(arch, m, t, i);
    LeafWriteInv(arch, m, t, i, 0);
    LeafWriteLookup(arch, m, t, i, 0, g, q);
    AgreeFully(q, path);
    if Passes(arch, m.ram, g, q, t, i) {
      PassesUnique(arch, m, g, q, f, path, t, i);
    } else if g == f && q == path {
      assert false;
    }
  }

  lemma ClearIsLeafWrite(arch: Arch, m: Mem, t: nat, i: nat)
    requires t in m.nodes && m.nodes[t].height == 1 && i < Radix(arch)
    ensures LeafWrite(arch, m, t, i, 0) && LeafValue(0) == None
  {
  }

  // ----- words of frames that are no tables

  lemma StoreEntries(m: Mem, f: nat, i: nat, v: nat)
    requires f < |m.ram| && f !in m.nodes
    ensures forall t, j :: t in m.nodes && 0 <= j ==> Entry(WriteEntry(m, f, i, v).ram, t, j) == Entry(m.ram, t, j)
    ensures forall t :: t in m.nodes && t < |m.ram| ==> WriteEntry(m, f, i, v).ram[t] == m.ram[t]
  {
  }

  lemma StoreLinks(arch: Arch, m: Mem, f: nat, i: nat, v: nat)
    requires LinkedDown(arch, m) && LinkedUp(arch, m) && f < |m.ram| && f !in m.nodes
    ensures LinkedDown(arch, WriteEntry(m, f, i, v)) && LinkedUp(arch, WriteEntry(m, f, i, v))
  {
    StoreEntries(m, f, i, v);
    hide Child, Present, FrameOf, Radix, Levels, Entry;
    var m' := WriteEntry(m, f, i, v);
    forall t | t in m'.nodes && m'.nodes[t].height < Levels(arch)
      ensures m.nodes[t].parent in m.nodes
    {
    }
  }

  lemma StoreShape(arch: Arch, m: Mem, f: nat, i: nat, v: nat)
    requires Shaped(arch, m) && TablesTaken(arch, m)
    ensures Shaped(arch, WriteEntry(m, f, i, v)) && TablesTaken(arch, WriteEntry(m, f, i, v))
    ensures Data(WriteEntry(m, f, i, v)) == Data(m)
    ensures forall t :: t in m.nodes ==> t < |m.ram|
  {
    hide Radix, Levels;
  }

  /** A word stored into a data frame touches no table. */
  lemma DataStoreInv(arch: Arch, m: Mem, f: nat, i: nat, v: nat)
    requires Inv(arch, m) && f in Data(m) && f < |m.ram|
    ensures Inv(arch, WriteEntry(m, f, i, v)) && Data(WriteEntry(m, f, i, v)) == Data(m)
    ensures forall t :: t in m.nodes ==> t < |m.ram| && SetEntry(m.ram, f, i, v)[t] == m.ram[t]
  {
    hide LinkedDown, LinkedUp, Shaped, TablesTaken;
    StoreShape(arch, m, f, i, v);
    StoreLinks(arch, m, f, i, v);
    StoreEntries(m, f, i, v);
  }

  /** Nor does it change what any page is mapped to. */
  lemma {:induction false} DataStoreLookup(arch: Arch, m: Mem, f: nat, i: nat, v: nat, g: nat, path: seq<nat>)
    requires Inv(arch, m) && f in Data(m) && f < |m.ram|
    requires g in m.nodes && m.nodes[g].height == |path| && ValidPath(arch, path)
    ensures Lookup(arch, SetEntry(m.ram, f, i, v), g, path) == Lookup(arch, m.ram, g, path)
    decreases path
  {
    hide Child, FrameOf, Radix, Levels, Inv;
    StoreEntries(m, f, i, v);
    NodeFits(arch, m, g);
    ChildOf(arch, m, g, path[0]);
    var e := Entry(m.ram, g, path[0]);
    if !Child(arch, |path|, e) {
    } else {
      DataStoreLookup(arch, m, f, i, v, FrameOf(e), path[1..]);
    }
  }

  // ----- making and deleting roots

  ghost function WithRoot(arch: Arch, m: Mem, p: nat): Mem
    requires p < |m.ram| && p < |m.taken|
  {
    Mem(m.ram[p := EmptyTable(arch)], m.taken[p := true], m.nodes[p := Node(Levels(arch), 0, 0)])
  }

  /** A fresh root maps nothing, and every other lookup stays. */
  lemma WithRootInv(arch: Arch, m: Mem, p: nat)
    requires Inv(arch, m) && 0 < p < |m.ram| && p < |m.taken| && !m.taken[p]
    ensures p !in m.nodes && Inv(arch, WithRoot(arch, m, p)) && Data(WithRoot(arch, m, p)) == Data(m)
  {
    hide LinkedDown, LinkedUp, Shaped, TablesTaken;
    RootShape(arch, m, p);
    RootLinksDown(arch, m, p);
    RootLinksUp(arch, m, p);
  }

  lemma RootShape(arch: Arch, m: Mem, p: nat)
    requires Shaped(arch, m) && TablesTaken(arch, m) && 0 < p < |m.ram| && p < |m.taken| && !m.taken[p]
    ensures p !in m.nodes
    ensures Shaped(arch, WithRoot(arch, m, p)) && TablesTaken(arch, WithRoot(arch, m, p))
    ensures Data(WithRoot(arch, m, p)) == Data(m)
  {
  }

  lemma RootEntries(arch: Arch, m: Mem, p: nat)
    requires p < |m.ram| && p < |m.taken|
    ensures forall g, j :: 0 <= g && 0 <= j ==>
              Entry(WithRoot(arch, m, p).ram, g, j) == if g == p then 0 else Entry(m.ram, g, j)
  {
  }

  lemma RootLinksDown(arch: Arch, m: Mem, p: nat)
    requires LinkedDown(arch, m) && p < |m.ram| && p < |m.taken| && p !in m.nodes
    ensures LinkedDown(arch, WithRoot(arch, m, p))
  {
    RootEntries(arch, m, p);
    ZeroEntry(arch, Levels(arch));
    hide Child, Present, FrameOf, Radix, Entry, Levels;
  }

  lemma RootLinksUp(arch: Arch, m: Mem, p: nat)
    requires LinkedUp(arch, m) && p < |m.ram| && p < |m.taken| && p !in m.nodes
    ensures LinkedUp(arch, WithRoot(arch, m, p))
  {
    RootEntries(arch, m, p);
    hide Child, Present, FrameOf, Radix, Entry, Levels;
    var m' := WithRoot(arch, m, p);
    forall t | t in m'.nodes && m'.nodes[t].height < Levels(arch)
      ensures t in m.nodes && m'.nodes[t] == m.nodes[t] && m.nodes[t].parent != p
    {
      assert m.nodes[t].parent in m.nodes;
    }
  }

  lemma {:induction false} WithRootLookup(arch: Arch, m: Mem, p: nat, g: nat, q: seq<nat>)
    requires Inv(arch, m) && p < |m.ram| && p < |m.taken| && !m.taken[p]
    requires ValidPath(arch, q)
    ensures Lookup(arch, WithRoot(arch, m, p).ram, p, q) == None
    ensures g in m.nodes && m.nodes[g].height == |q| ==>
              Lookup(arch, WithRoot(arch, m, p).ram, g, q) == Lookup(arch, m.ram, g, q)
    decreases q
  {
    hide Child, Radix, Levels, Inv, WithRoot;
    RootEntries(arch, m, p);
    ZeroEntry(arch, |q|);
    if g in m.nodes && m.nodes[g].height == |q| {
      NodeFits(arch, m, g);
      ChildOf(arch, m, g, q[0]);
      if !Child(arch, |q|, Entry(m.ram, g, q[0])) {
      } else {
        WithRootLookup(arch, m, p, FrameOf(Entry(m.ram, g, q[0])), q[1..]);
      }
    }
  }

  /** A two-level root and the tables it points to. */
  ghost function Owned(m: Mem, d: nat): set<nat> {
    set t | t in m.nodes && (t == d || (m.nodes[t].height == 1 && m.nodes[t].parent == d))
  }

  /** The memory after the frames of root `d` are given back. */
  ghost function WithoutRoot(m: Mem, d: nat): Mem {
    Mem(m.ram, seq(|m.taken|, k requires 0 <= k < |m.taken| => m.taken[k] && k !in Owned(m, d)), m.nodes - Owned(m, d))
  }

  /** Deleting an x86 root gives back its directory and tables and no other frame. */
  lemma WithoutRootInv(m: Mem, d: nat)
    requires Inv(X86, m) && d in m.nodes && m.nodes[d].height == 2
    ensures Inv(X86, WithoutRoot(m, d)) && Data(WithoutRoot(m, d)) == Data(m)
  {
    hide Child, Present, FrameOf, Entry;
    var m' := WithoutRoot(m, d);
    assert TablesTaken(X86, m');
    assert LinkedDown(X86, m');
    assert LinkedUp(X86, m');
  }

  /** With every root gone nothing is left of the tree: all tables have been given back. */
  lemma NoRoots(m: Mem)
    requires Inv(X86, m) && forall f :: f in m.nodes ==> m.nodes[f].height != 2
    ensures m.nodes == map[]
    ensures Data(m) == set k | 0 <= k < |m.taken| && m.taken[k]
  {
    assert forall f :: f in m.nodes ==> m.nodes[f].height == 2;
  }

  // ----- single frames, as `allocatePStructAny` claims them

  /** A one-page request is granted, and gets the lowest frame that follows a free one. */
  lemma OneFrame(s: seq<bool>)
    requires HasFrame(s)
    ensures Ends(s, 1, 1) && !Refused(s, 1, 1) && LowestFrame(s) < |s|
    ensures forall p: nat :: Granted(s, 1, 1, p) ==> p == LowestFrame(s)
    ensures Marked(s, LowestFrame(s), 1, true) == s[LowestFrame(s) := true]
  {
    var p := LowestFrame(s);
    assert Follows(s, 1, p);
    OnePageServes(s, 1, p);
    assert ServedIn(s, 1, 1, 1);
    forall q: nat | LeastServing(s, 1, 1, 1, q)
      ensures q == p
    {
      OnePage(s, 1, q);
    }
  }
}
