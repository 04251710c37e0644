/** Reference-counted handles: several handles share a counter and an object. */
module SharedPointers {

  /** A handle's counter and object; object 0 is the null pointer. */
  datatype Handle = Handle(cnt: nat, ptr: nat)

  /** Live handles, live counters, every object ever wrapped, and the objects deleted, in order. */
  datatype State = State(handles: map<nat, Handle>, counts: map<nat, nat>, wrapped: set<nat>, deleted: seq<nat>)

  datatype Op =
    | Wrap(h: nat, c: nat, ptr: nat)
    | Copy(h: nat, from: nat)
    | Assign(h: nat, from: nat)
    | Destroy(h: nat)

  ghost function Sharing(handles: map<nat, Handle>, c: nat): set<nat> {
    set h | h in handles && handles[h].cnt == c
  }

  /** Each live counter counts the handles that share it. */
  ghost predicate Counted(handles: map<nat, Handle>, counts: map<nat, nat>) {
    && (forall h :: h in handles ==> handles[h].cnt in counts)
    && (forall c :: c in counts ==> counts[c] == |Sharing(handles, c)| && counts[c] > 0)
  }

  /** Handles share an object exactly when they share its counter. */
  ghost predicate Paired(handles: map<nat, Handle>) {
    forall g, h :: g in handles && h in handles ==>
      && (handles[g].cnt == handles[h].cnt ==> handles[g].ptr == handles[h].ptr)
      && (handles[g].ptr == handles[h].ptr != 0 ==> handles[g].cnt == handles[h].cnt)
  }

  ghost predicate Held(handles: map<nat, Handle>, p: nat) {
    exists h :: h in handles && handles[h].ptr == p
  }

  /** An object that was wrapped is held by a live handle, or has been deleted once; not both. */
  ghost predicate DeletedOnce(s: State) {
    && (forall i, j :: 0 <= i < j < |s.deleted| ==> s.deleted[i] != s.deleted[j])
    && (forall p :: p in s.deleted ==> p in s.wrapped)
    && 0 !in s.wrapped
    && (forall p :: p in s.wrapped ==> (p in s.deleted <==> !Held(s.handles, p)))
    && (forall h :: h in s.handles && s.handles[h].ptr != 0 ==> s.handles[h].ptr in s.wrapped)
  }

  ghost predicate Sound(s: State) {
    Counted(s.handles, s.counts) && Paired(s.handles) && DeletedOnce(s)
  }

  /** A new handle has an unused address, a new counter too, and an object is wrapped once. */
  predicate Enabled(s: State, op: Op) {
    match op
    case Wrap(h, c, ptr) => h !in s.handles && c !in s.counts && ptr !in s.wrapped
    case Copy(h, from) => h !in s.handles && from in s.handles
    case Assign(h, from) => h in s.handles && from in s.handles
    case Destroy(h) => h in s.handles
  }

  /** `cnt->down()`, deleting counter and object when it reaches zero; the handle is gone. */
  function Drop(s: State, h: nat): State
    requires h in s.handles && s.handles[h].cnt in s.counts && s.counts[s.handles[h].cnt] > 0
  {
    var Handle(c, ptr) := s.handles[h];
    if s.counts[c] == 1 then
      State(s.handles - {h}, s.counts - {c}, s.wrapped, if ptr == 0 then s.deleted else s.deleted + [ptr])
    else State(s.handles - {h}, s.counts[c := s.counts[c] - 1], s.wrapped, s.deleted)
  }

  /** A handle comes to share `from`'s counter and object: `cnt->up()`. */
  function Join(s: State, h: nat, to: Handle): State
    requires to.cnt in s.counts
  {
    State(s.handles[h := to], s.counts[to.cnt := s.counts[to.cnt] + 1], s.wrapped, s.deleted)
  }

  lemma SharingGains(handles: map<nat, Handle>, h: nat, to: Handle, c: nat)
    requires h !in handles
    ensures |Sharing(handles[h := to], c)| == |Sharing(handles, c)| + if to.cnt == c then 1 else 0
  {
    assert Sharing(handles[h := to], c) == Sharing(handles, c) + if to.cnt == c then {h} else {};
  }

  lemma SharingLoses(handles: map<nat, Handle>, h: nat, c: nat)
    requires h in handles
    ensures |Sharing(handles - {h}, c)| == |Sharing(handles, c)| - if handles[h].cnt == c then 1 else 0
  {
    assert Sharing(handles - {h}, c) == Sharing(handles, c) - if handles[h].cnt == c then {h} else {};
    if handles[h].cnt == c {
      assert h in Sharing(handles, c);
    }
  }

  lemma OnlyOne(handles: map<nat, Handle>, h: nat, c: nat)
    requires h in handles && handles[h].cnt == c && |Sharing(handles, c)| == 1
    ensures forall g :: g in handles && handles[g].cnt == c ==> g == h
  {
    assert h in Sharing(handles, c);
    assert |Sharing(handles, c) - {h}| == 0;
    forall g | g in handles && handles[g].cnt == c
      ensures g == h
    {
      assert g in Sharing(handles, c);
      assert g !in Sharing(handles, c) - {h};
    }
  }

  lemma DropCounted(s: State, h: nat)
    requires Counted(s.handles, s.counts) && h in s.handles
    ensures Counted(Drop(s, h).handles, Drop(s, h).counts)
    ensures forall g :: g in s.handles && g != h ==> s.handles[g].cnt in Drop(s, h).counts
  {
    var c := s.handles[h].cnt;
    forall d | d in s.counts
      ensures |Sharing(s.handles - {h}, d)| == s.counts[d] - if c == d then 1 else 0
    {
      SharingLoses(s.handles, h, d);
    }
    if s.counts[c] == 1 {
      OnlyOne(s.handles, h, c);
    }
  }

  /** The object goes with its last handle, and with no other. */
  lemma DropDeletes(s: State, h: nat)
    requires Sound(s) && h in s.handles
    ensures DeletedOnce(Drop(s, h))
  {
    var Handle(c, ptr) := s.handles[h];
    var s' := Drop(s, h);
    if s.counts[c] == 1 {
      OnlyOne(s.handles, h, c);
    } else {
      SharingLoses(s.handles, h, c);
      var g :| g in Sharing(s.handles - {h}, c);
      assert g in s'.handles && s'.handles[g].ptr == ptr;
    }
    forall p | p != ptr || s.counts[c] != 1
      ensures Held(s'.handles, p) <==> Held(s.handles, p)
    {
      if x :| x in s.handles && s.handles[x].ptr == p {
        if x != h {
          assert s'.handles[x].ptr == p;
        }
      }
    }
  }

  lemma DropSound(s: State, h: nat)
    requires Sound(s) && h in s.handles
    ensures Sound(Drop(s, h))
    ensures forall g :: g in s.handles && g != h ==> s.handles[g].cnt in Drop(s, h).counts
  {
    hide DeletedOnce;
    DropCounted(s, h);
    DropDeletes(s, h);
  }

  lemma JoinCounted(s: State, h: nat, to: Handle)
    requires Counted(s.handles, s.counts) && h !in s.handles && to.cnt in s.counts
    ensures Counted(Join(s, h, to).handles, Join(s, h, to).counts)
  {
    forall c | c in s.counts
      ensures |Sharing(s.handles[h := to], c)| == s.counts[c] + if to.cnt == c then 1 else 0
    {
      SharingGains(s.handles, h, to, c);
    }
  }

  lemma JoinDeletes(s: State, h: nat, to: Handle)
    requires DeletedOnce(s) && h !in s.handles && to.cnt in s.counts
    requires exists g :: g in s.handles && s.handles[g] == to
    ensures DeletedOnce(Join(s, h, to))
  {
    HeldGains(s.handles, h, to);
    var g :| g in s.handles && s.handles[g] == to;
    assert Held(s.handles, to.ptr);
  }

  lemma JoinSound(s: State, h: nat, to: Handle)
    requires Sound(s) && h !in s.handles && exists g :: g in s.handles && s.handles[g] == to
    ensures to.cnt in s.counts && Sound(Join(s, h, to))
  {
    hide DeletedOnce;
    var g :| g in s.handles && s.handles[g] == to;
    JoinCounted(s, h, to);
    JoinDeletes(s, h, to);
  }

  lemma HeldGains(handles: map<nat, Handle>, h: nat, to: Handle)
    requires h !in handles
    ensures forall p :: Held(handles[h := to], p) <==> Held(handles, p) || p == to.ptr
  {
    forall p | Held(handles, p) || p == to.ptr
      ensures Held(handles[h := to], p)
    {
      if x :| x in handles && handles[x].ptr == p {
        assert handles[h := to][x].ptr == p;
      } else {
        assert handles[h := to][h].ptr == p;
      }
    }
  }

  /** A new counter starts at zero and is raised at once for its first handle. */
  function Fresh(s: State, h: nat, c: nat, ptr: nat): State {
    Join(State(s.handles, s.counts[c := 0], if ptr == 0 then s.wrapped else s.wrapped + {ptr}, s.deleted),
         h, Handle(c, ptr))
  }

  lemma FreshCounted(s: State, h: nat, c: nat, ptr: nat)
    requires Counted(s.handles, s.counts) && h !in s.handles && c !in s.counts
    ensures Counted(Fresh(s, h, c, ptr).handles, Fresh(s, h, c, ptr).counts)
  {
    var to := Handle(c, ptr);
    assert Sharing(s.handles, c) == {};
    forall d | d in s.counts || d == c
      ensures |Sharing(s.handles[h := to], d)| == (if d == c then 1 else s.counts[d])
    {
      SharingGains(s.handles, h, to, d);
    }
  }

  lemma FreshPaired(s: State, h: nat, c: nat, ptr: nat)
    requires Paired(s.handles) && h !in s.handles
    requires forall g :: g in s.handles ==> s.handles[g].cnt != c && (ptr != 0 ==> s.handles[g].ptr != ptr)
    ensures Paired(Fresh(s, h, c, ptr).handles)
  {
  }

  lemma FreshDeletes(s: State, h: nat, c: nat, ptr: nat)
    requires DeletedOnce(s) && h !in s.handles && ptr !in s.wrapped
    ensures DeletedOnce(Fresh(s, h, c, ptr))
  {
    HeldGains(s.handles, h, Handle(c, ptr));
  }

  lemma FreshSound(s: State, h: nat, c: nat, ptr: nat)
    requires Sound(s) && h !in s.handles && c !in s.counts && ptr !in s.wrapped
    ensures Sound(Fresh(s, h, c, ptr))
  {
    hide Paired, Counted, DeletedOnce;
    UnusedParts(s, c, ptr);
    FreshCounted(s, h, c, ptr);
    FreshPaired(s, h, c, ptr);
    FreshDeletes(s, h, c, ptr);
  }

  lemma UnusedParts(s: State, c: nat, ptr: nat)
    requires Counted(s.handles, s.counts) && DeletedOnce(s) && c !in s.counts && ptr !in s.wrapped
    ensures forall g :: g in s.handles ==> s.handles[g].cnt != c && (ptr != 0 ==> s.handles[g].ptr != ptr)
  {
  }

  // ----- steps and runs

  ghost function Step(s: State, op: Op): State
    requires Sound(s) && Enabled(s, op)
  {
    match op
    case Wrap(h, c, ptr) => Fresh(s, h, c, ptr)
    case Copy(h, from) => Join(s, h, s.handles[from])
    case Assign(h, from) =>
      if h == from then s
      else
        DropSound(s, h);
        Join(Drop(s, h), h, s.handles[from])
    case Destroy(h) => Drop(s, h)
  }

  lemma StepSound(s: State, op: Op)
    requires Sound(s) && Enabled(s, op)
    ensures Sound(Step(s, op))
  {
    hide DeletedOnce, Paired;
    match op
    case Wrap(h, c, ptr) => FreshSound(s, h, c, ptr);
    case Copy(h, from) => JoinSound(s, h, s.handles[from]);
    case Assign(h, from) =>
      if h != from {
        DropSound(s, h);
        assert Drop(s, h).handles[from] == s.handles[from];
        JoinSound(Drop(s, h), h, s.handles[from]);
      }
    case Destroy(h) => DropSound(s, h);
  }

  lemma LiveCounter(s: State, h: nat)
    requires Sound(s) && h in s.handles
    ensures s.handles[h].cnt in s.counts && s.counts[s.handles[h].cnt] > 0
  {
  }

  const START := State(map[], map[], {}, [])

  ghost predicate RunEnabled(s: State, ops: seq<Op>)
    requires Sound(s)
    decreases ops
  {
    ops == [] || (Enabled(s, ops[0]) && (StepSound(s, ops[0]); RunEnabled(Step(s, ops[0]), ops[1..])))
  }

  ghost function Run(s: State, ops: seq<Op>): (s': State)
    requires Sound(s) && RunEnabled(s, ops)
    ensures Sound(s')
    decreases ops
  {
    if ops == [] then s
    else
      StepSound(s, ops[0]);
      Run(Step(s, ops[0]), ops[1..])
  }

  /** After any run from the start, every counter equals the number of handles sharing it, and an
    object wrapped in the run is deleted, once, exactly if its last handle is gone. */
  lemma RunCounts(ops: seq<Op>, h: nat, p: nat)
    requires Sound(START) && RunEnabled(START, ops)
    ensures var s := Run(START, ops);
            && (h in s.handles ==>
                  s.handles[h].cnt in s.counts && s.counts[s.handles[h].cnt] == |Sharing(s.handles, s.handles[h].cnt)|)
            && (p in s.wrapped ==>
                  multiset(s.deleted)[p] == if Held(s.handles, p) then 0 else 1)
  {
    var s := Run(START, ops);
    if p in s.wrapped {
      OnceInSequence(s.deleted, p);
    }
  }

  lemma {:induction false} OnceInSequence(d: seq<nat>, p: nat)
    requires forall i, j :: 0 <= i < j < |d| ==> d[i] != d[j]
    ensures multiset(d)[p] == if p in d then 1 else 0
  {
    if d == [] {
    } else {
      var front, last := d[..|d| - 1], d[|d| - 1];
      assert d == front + [last];
      OnceInSequence(front, p);
    }
  }

  // ----- handles as a plain map from addresses to objects

  /** Handle `h` is the only one on its object. */
  ghost predicate Alone(handles: map<nat, Handle>, h: nat)
    requires h in handles
  {
    handles[h].ptr != 0 && forall g :: g in handles && g != h ==> handles[g].ptr != handles[h].ptr
  }

  lemma AloneIs(s: State, h: nat)
    requires Sound(s) && h in s.handles
    ensures s.handles[h].cnt in s.counts
    ensures Alone(s.handles, h) <==> s.handles[h].ptr != 0 && s.counts[s.handles[h].cnt] == 1
  {
    var c := s.handles[h].cnt;
    if s.counts[c] == 1 {
      OnlyOne(s.handles, h, c);
    } else {
      SharingLoses(s.handles, h, c);
      var g :| g in Sharing(s.handles - {h}, c);
      assert s.handles[g].ptr == s.handles[h].ptr;
    }
  }

  /** What each operation does to handles and objects: a new handle holds what it is given, one that is
    assigned holds from then on what the other holds, and an object is deleted exactly when a handle
    leaves it that was the only one. */
  lemma StepDoes(s: State, op: Op)
    requires Sound(s) && Enabled(s, op)
    ensures var s' := Step(s, op);
            match op
            case Wrap(h, c, ptr) =>
              s'.handles == s.handles[h := Handle(c, ptr)] && s'.deleted == s.deleted
            case Copy(h, from) =>
              s'.handles == s.handles[h := s.handles[from]] && s'.deleted == s.deleted
            case Assign(h, from) =>
              && s'.handles == s.handles[h := s.handles[from]]
              && s'.deleted == if h != from && Alone(s.handles, h) then s.deleted + [s.handles[h].ptr] else s.deleted
            case Destroy(h) =>
              && s'.handles == s.handles - {h}
              && s'.deleted == if Alone(s.handles, h) then s.deleted + [s.handles[h].ptr] else s.deleted
  {
    hide DeletedOnce, Paired, Counted, Alone;
    match op
    case Wrap(h, c, ptr) =>
    case Copy(h, from) =>
    case Assign(h, from) => AloneIs(s, h);
    case Destroy(h) => AloneIs(s, h);
  }

  ghost function Objects(handles: map<nat, Handle>): map<nat, nat> {
    map h | h in handles :: handles[h].ptr
  }

  /** The operations on a plain map from addresses to objects. */
  function After(m: map<nat, nat>, op: Op): map<nat, nat> {
    match op
    case Wrap(h, _, ptr) => m[h := ptr]
    case Copy(h, from) => if from in m then m[h := m[from]] else m
    case Assign(h, from) => if from in m then m[h := m[from]] else m
    case Destroy(h) => m - {h}
  }

  /** The object that an operation takes the last address from. */
  ghost function Dead(m: map<nat, nat>, op: Op): seq<nat> {
    if (op.Destroy? || (op.Assign? && op.h != op.from)) && op.h in m && m[op.h] != 0
       && forall g :: g in m && g != op.h ==> m[g] != m[op.h]
    then [m[op.h]] else []
  }

  function AfterAll(m: map<nat, nat>, ops: seq<Op>): map<nat, nat>
    decreases ops
  {
    if ops == [] then m else AfterAll(After(m, ops[0]), ops[1..])
  }

  ghost function AllDead(m: map<nat, nat>, ops: seq<Op>): seq<nat>
    decreases ops
  {
    if ops == [] then [] else Dead(m, ops[0]) + AllDead(After(m, ops[0]), ops[1..])
  }

  lemma StepPlain(s: State, op: Op)
    requires Sound(s) && Enabled(s, op)
    ensures Objects(Step(s, op).handles) == After(Objects(s.handles), op)
    ensures Step(s, op).deleted == s.deleted + Dead(Objects(s.handles), op)
  {
    hide Sound, Step;
    StepDoes(s, op);
    if op.Assign? || op.Destroy? {
      AloneObjects(s.handles, op.h);
    }
  }

  lemma AloneObjects(handles: map<nat, Handle>, h: nat)
    requires h in handles
    ensures var m := Objects(handles);
            Alone(handles, h) <==> m[h] != 0 && forall g :: g in m && g != h ==> m[g] != m[h]
  {
    var m := Objects(handles);
    if forall g :: g in m && g != h ==> m[g] != m[h] {
      forall g | g in handles && g != h
        ensures handles[g].ptr != handles[h].ptr
      {
        assert g in m;
      }
    }
  }

  /** Over any run the handles are a plain map from addresses to objects, and the objects deleted are,
    in order, those that lost their last address. */
  lemma {:induction false} RunPlain(s: State, ops: seq<Op>)
    requires Sound(s) && RunEnabled(s, ops)
    ensures Objects(Run(s, ops).handles) == AfterAll(Objects(s.handles), ops)
    ensures Run(s, ops).deleted == s.deleted + AllDead(Objects(s.handles), ops)
    decreases ops
  {
    hide Sound, Step, Enabled, Dead, After, Objects;
    if ops == [] {
    } else {
      StepSound(s, ops[0]);
      StepPlain(s, ops[0]);
      RunPlain(Step(s, ops[0]), ops[1..]);
    }
  }

  // ----- the handles as objects in memory

  class Pointers {
    var handles: map<nat, Handle>
    var counts: map<nat, nat>
    var deleted: seq<nat>
    ghost var wrapped: set<nat>

    ghost function View(): State
      reads this
    {
      State(handles, counts, wrapped, deleted)
    }

    constructor ()
      ensures View() == START && Sound(View())
    {
      handles, counts, deleted, wrapped := map[], map[], [], {};
    }

    /** `ReferenceCounter::up`. */
    method Up(c: nat) returns (n: nat)
      requires c in counts
      modifies this`counts
      ensures counts == old(counts)[c := old(counts)[c] + 1] && n == counts[c]
    {
      counts := counts[c := counts[c] + 1];
      n := counts[c];
    }

    /** `ReferenceCounter::down`. */
    method Down(c: nat) returns (n: nat)
      requires c in counts && counts[c] > 0
      modifies this`counts
      ensures counts == old(counts)[c := old(counts)[c] - 1] && n == counts[c]
    {
      counts := counts[c := counts[c] - 1];
      n := counts[c];
    }

    method Delete(ptr: nat)
      modifies this`deleted
      ensures deleted == if ptr == 0 then old(deleted) else old(deleted) + [ptr]
    {
      if ptr != 0 {
        deleted := deleted + [ptr];
      }
    }

    /** The constructor from a raw pointer (0: the default constructor), with counter `c`. */
    method Wrap(h: nat, c: nat, ptr: nat)
      requires Sound(View()) && Enabled(View(), Op.Wrap(h, c, ptr))
      modifies this
      ensures Sound(View()) && View() == Step(old(View()), Op.Wrap(h, c, ptr))
      ensures handles == old(handles)[h := Handle(c, ptr)] && deleted == old(deleted)
    {
      StepDoes(View(), Op.Wrap(h, c, ptr));
      StepSound(View(), Op.Wrap(h, c, ptr));
      counts := counts[c := 0];
      handles := handles[h := Handle(c, ptr)];
      var _ := Up(c);
      wrapped := if ptr == 0 then wrapped else wrapped + {ptr};
    }

    /** The copy constructor. */
    method Copy(h: nat, from: nat)
      requires Sound(View()) && Enabled(View(), Op.Copy(h, from))
      modifies this
      ensures Sound(View()) && View() == Step(old(View()), Op.Copy(h, from))
      ensures handles == old(handles)[h := old(handles)[from]] && deleted == old(deleted)
    {
      StepDoes(View(), Op.Copy(h, from));
      StepSound(View(), Op.Copy(h, from));
      handles := handles[h := handles[from]];
      var _ := Up(handles[h].cnt);
    }

    /** `cnt->down()` for handle `h`; at zero counter and object are deleted. */
    method Leave(h: nat)
      requires h in handles && handles[h].cnt in counts && counts[handles[h].cnt] > 0
      modifies this`counts, this`deleted
      ensures State(handles - {h}, counts, wrapped, deleted) == Drop(old(View()), h)
    {
      var Handle(c, ptr) := handles[h];
      var n := Down(c);
      if n == 0 {
        counts := counts - {c};
        assert counts == old(counts) - {c};
        Delete(ptr);
      }
    }

    /** The destructor. */
    method Destroy(h: nat)
      requires Sound(View()) && Enabled(View(), Op.Destroy(h))
      modifies this
      ensures Sound(View()) && View() == Step(old(View()), Op.Destroy(h))
      ensures handles == old(handles) - {h}
      ensures deleted == if Alone(old(handles), h) then old(deleted) + [old(handles)[h].ptr] else old(deleted)
    {
      hide Sound, Drop, Alone;
      LiveCounter(View(), h);
      StepSound(View(), Op.Destroy(h));
      StepDoes(View(), Op.Destroy(h));
      Leave(h);
      handles := handles - {h};
    }

    /** `operator=`; assigning a handle to itself does nothing. */
    method Assign(h: nat, from: nat)
      requires Sound(View()) && Enabled(View(), Op.Assign(h, from))
      modifies this
      ensures Sound(View()) && View() == Step(old(View()), Op.Assign(h, from))
      ensures handles == old(handles)[h := old(handles)[from]]
      ensures deleted == if h != from && Alone(old(handles), h) then old(deleted) + [old(handles)[h].ptr]
                         else old(deleted)
    {
      hide Sound, Drop, Alone;
      LiveCounter(View(), h);
      StepSound(View(), Op.Assign(h, from));
      StepDoes(View(), Op.Assign(h, from));
      if h != from {
        DropSound(View(), h);
        Leave(h);
        handles := handles[h := handles[from]];
        var _ := Up(handles[h].cnt);
        assert handles == (old(handles) - {h})[h := old(handles)[from]];
      }
    }
  }
}
