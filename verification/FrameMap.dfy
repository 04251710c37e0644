/** Claims on a map of page frames (`true`: taken), on values. */
module FrameMap {
  import opened BitMapModel

  /** The map with frames `p` to `p + n` all set to `value`. */
  function Marked(s: seq<bool>, p: nat, n: nat, value: bool): (r: seq<bool>)
    requires p + n <= |s|
    ensures |r| == |s|
    ensures forall k :: 0 <= k < |s| ==> r[k] == if p <= k < p + n then value else s[k]
  {
    seq(|s|, k requires 0 <= k < |s| => if p <= k < p + n then value else s[k])
  }

  ghost predicate RunFree(s: seq<bool>, p: nat, n: nat) {
    p + n <= |s| && forall k :: p <= k < p + n ==> !s[k]
  }

  ghost predicate RunTaken(s: seq<bool>, p: nat, n: nat) {
    p + n <= |s| && forall k :: p <= k < p + n ==> s[k]
  }

  /** Claiming a free run and giving it back restores the map. */
  lemma MarkedBack(s: seq<bool>, p: nat, n: nat)
    requires RunFree(s, p, n)
    ensures Marked(Marked(s, p, n, true), p, n, false) == s
  {
  }

  // ----- the aligned scan

  /** A frame the scan can see free: `getIndexOf` looks no further than |s| / 8. */
  predicate Seen(s: seq<bool>, f: int) {
    0 <= f <= |s| / 8 && f < |s| && !s[f]
  }

  ghost predicate SeenBetween(s: seq<bool>, lo: int, hi: int) {
    exists f :: lo <= f < hi && Seen(s, f)
  }

  /** A pass of the scan that searches from frame `from` proposes the multiples `p` of `a` that
    follow a free frame: one strictly between `p - a` and `p`, or `p - a` itself unless that was
    proposed (and refused) before. */
  ghost predicate Visited(s: seq<bool>, a: nat, from: nat, p: nat)
    requires a > 0
    decreases p
  {
    p >= a &&
    (SeenBetween(s, if from <= p - a then p - a + 1 else from, p)
     || (from <= p - a && Seen(s, p - a) && !Visited(s, a, from, p - a)))
  }

  /** A frame proposed in a pass, from which `n` frames are free. */
  ghost predicate Serves(s: seq<bool>, a: nat, from: nat, n: nat, p: nat)
    requires a > 0
  {
    p % a == 0 && Visited(s, a, from, p) && RunFree(s, p, n)
  }

  ghost predicate LeastServing(s: seq<bool>, a: nat, from: nat, n: nat, p: nat)
    requires a > 0
  {
    Serves(s, a, from, n, p) && forall q :: 0 <= q < p ==> !Serves(s, a, from, n, q)
  }

  ghost predicate ServedIn(s: seq<bool>, a: nat, from: nat, n: nat)
    requires a > 0
  {
    exists p: nat :: Serves(s, a, from, n, p)
  }

  /** A pass proposes a frame past the end of the map, where the scan gives up. */
  ghost predicate Over(s: seq<bool>, a: nat, from: nat)
    requires a > 0
  {
    exists p: nat :: p > |s| && p % a == 0 && Visited(s, a, from, p)
  }

  /** The frame a request gets.  The first pass searches from frame `a`.  Having found nothing
    more it takes the failed search for frame 0, tries that, and goes on from frame 1; all later
    passes are like this second one. */
  ghost predicate Granted(s: seq<bool>, a: nat, n: nat, p: nat)
    requires a > 0
  {
    if ServedIn(s, a, a, n) then LeastServing(s, a, a, n, p)
    else if Over(s, a, a) then false
    else if RunFree(s, 0, n) then p == 0
    else LeastServing(s, a, 1, n, p)
  }

  /** The request is given up: the scan comes to a frame past the end of the map first. */
  ghost predicate Refused(s: seq<bool>, a: nat, n: nat)
    requires a > 0
  {
    && !ServedIn(s, a, a, n)
    && (Over(s, a, a) || (!RunFree(s, 0, n) && !ServedIn(s, a, 1, n) && Over(s, a, 1)))
  }

  /** The scan ends, in one way or the other. */
  ghost predicate Ends(s: seq<bool>, a: nat, n: nat)
    requires a > 0
  {
    || ServedIn(s, a, a, n) || Over(s, a, a) || RunFree(s, 0, n)
    || ServedIn(s, a, 1, n) || Over(s, a, 1)
  }

  lemma {:induction false} LeastExists(s: seq<bool>, a: nat, from: nat, n: nat, p: nat)
    requires a > 0 && Serves(s, a, from, n, p)
    ensures exists q :: 0 <= q <= p && LeastServing(s, a, from, n, q)
  {
    hide Serves;
    if q :| 0 <= q < p && Serves(s, a, from, n, q) {
      LeastExists(s, a, from, n, q);
    } else {
      assert LeastServing(s, a, from, n, p);
    }
  }

  /** A scan that ends is either given up or grants one frame, a multiple of the alignment from
    which the whole run is free. */
  lemma EndsOneWay(s: seq<bool>, a: nat, n: nat)
    requires a > 0
    ensures Ends(s, a, n) <==> Refused(s, a, n) || exists p: nat :: Granted(s, a, n, p)
    ensures forall p: nat :: Granted(s, a, n, p) ==> !Refused(s, a, n) && p % a == 0 && RunFree(s, p, n)
    ensures forall p: nat, q: nat :: Granted(s, a, n, p) && Granted(s, a, n, q) ==> p == q
  {
    hide Visited, RunFree, Over;
    ZeroMultiple(a);
    if ServedIn(s, a, a, n) {
      var p: nat :| Serves(s, a, a, n, p);
      LeastExists(s, a, a, n, p);
      var q :| 0 <= q <= p && LeastServing(s, a, a, n, q);
      assert Granted(s, a, n, q);
    } else if RunFree(s, 0, n) && !Over(s, a, a) {
      assert Granted(s, a, n, 0);
    } else if ServedIn(s, a, 1, n) && !Over(s, a, a) {
      var p: nat :| Serves(s, a, 1, n, p);
      LeastExists(s, a, 1, n, p);
      var q :| 0 <= q <= p && LeastServing(s, a, 1, n, q);
      assert Granted(s, a, n, q);
    }
  }

  /** The frame granted is frame 0, so that the answer reads like a failure, exactly if the first
    pass neither serves the request nor leaves the map, and the run is free from frame 0 on.  A
    taken frame 0 rules that out. */
  lemma ZeroGranted(s: seq<bool>, a: nat, n: nat)
    requires a > 0
    ensures Granted(s, a, n, 0) <==> !ServedIn(s, a, a, n) && !Over(s, a, a) && RunFree(s, 0, n)
    ensures n > 0 && s != [] && s[0] ==> !Granted(s, a, n, 0)
  {
    assert !Visited(s, a, a, 0) && !Visited(s, a, 1, 0);
  }

  lemma ZeroMultiple(a: nat)
    requires a > 0
    ensures 0 % a == 0
  {
  }

  lemma MulMonotone(a: nat, x: int, y: int)
    ensures x <= y ==> a * x <= a * y
  {
  }

  lemma MultipleGap(p: nat, q: nat, a: nat)
    requires a > 0 && p % a == 0 && q % a == 0 && p < q
    ensures p + a <= q && (q - a) % a == 0
  {
    var i, j := p / a, q / a;
    assert p == a * i && q == a * j;
    MulMonotone(a, j, i);
    MulMonotone(a, i + 1, j);
    assert a * (i + 1) == p + a && a * (j - 1) == q - a;
    ModOfMultiple(a, j - 1);
  }

  lemma ModOfMultiple(a: nat, k: nat)
    requires a > 0
    ensures (a * k) % a == 0
  {
    var q, r := (a * k) / a, (a * k) % a;
    assert a * k == a * q + r;
    assert a * (k - q) == r;
    assert k - q >= 1 ==> a * (k - q) >= a;
    assert k - q <= -1 ==> a * (k - q) <= a * -1;
  }

  /** The multiple of `a` the source moves to from frame `f`: one past the multiple at or below. */
  function NextMultiple(f: nat, a: nat): (p: nat)
    requires a > 0
    ensures f < p <= f + a
  {
    (f / a + 1) * a
  }

  lemma NextMultipleIs(f: nat, a: nat)
    requires a > 0
    ensures NextMultiple(f, a) % a == 0
  {
    var q := f / a + 1;
    ModOfMultiple(a, q);
    assert NextMultiple(f, a) == a * q;
  }

  /** First frame seen free from `from` on, or -1. */
  function FirstSeen(s: seq<bool>, from: nat): (f: int)
    requires |s| >= 8
    ensures f == -1 || (from <= f && Seen(s, f))
    ensures f != -1 ==> !SeenBetween(s, from, f)
    ensures f == -1 ==> forall k :: from <= k ==> !Seen(s, k)
  {
    FirstIn(s, false, from, |s| / 8)
  }

  /** Whatever a pass proposes follows a frame seen free at or after its start. */
  lemma VisitedSeen(s: seq<bool>, a: nat, from: nat, q: nat)
    requires a > 0 && Visited(s, a, from, q)
    ensures SeenBetween(s, from, q)
  {
    if from <= q - a && Seen(s, q - a) {
    } else {
      var f :| (if from <= q - a then q - a + 1 else from) <= f < q && Seen(s, f);
      assert from <= f < q;
    }
  }

  lemma NoneBefore(s: seq<bool>, a: nat, from: nat, f: nat, q: nat)
    requires a > 0 && !SeenBetween(s, from, f) && q <= f
    ensures !Visited(s, a, from, q)
  {
    if Visited(s, a, from, q) {
      VisitedSeen(s, a, from, q);
      assert SeenBetween(s, from, f);
    }
  }

  /** The first proposal of a pass, made from the first frame seen free. */
  lemma ScanStarts(s: seq<bool>, a: nat, from: nat, f: nat)
    requires a > 0 && |s| >= 8 && f == FirstSeen(s, from)
    ensures var p := NextMultiple(f, a);
            && p % a == 0 && Visited(s, a, from, p)
            && forall q :: 0 <= q < p && q % a == 0 ==> !Visited(s, a, from, q)
  {
    hide FirstSeen;
    var p := NextMultiple(f, a);
    NextMultipleIs(f, a);
    forall q | 0 <= q < p && q % a == 0
      ensures !Visited(s, a, from, q)
    {
      MultipleGap(q, p, a);
      NoneBefore(s, a, from, f, q);
    }
    if p - a == f {
      NoneBefore(s, a, from, f, f);
    } else {
      assert (if from <= p - a then p - a + 1 else from) <= f < p;
    }
  }

  /** A proposal later than the refused `index` needs a frame seen free after `index`. */
  lemma VisitedLater(s: seq<bool>, a: nat, from: nat, index: nat, q: nat)
    requires a > 0 && index % a == 0 && q % a == 0 && index < q
    requires Visited(s, a, from, index)
    ensures Visited(s, a, from, q) ==> SeenBetween(s, index + 1, q)
  {
    MultipleGap(index, q, a);
    if !Visited(s, a, from, q) {
    } else if f :| (if from <= q - a then q - a + 1 else from) <= f < q && Seen(s, f) {
      VisitedSeen(s, a, from, index);
      assert index + 1 <= f < q;
    } else {
      assert q - a != index;
      assert index + 1 <= q - a < q && Seen(s, q - a);
    }
  }

  /** The next proposal after a refused one: nothing that could be proposed is passed over. */
  lemma ScanAdvances(s: seq<bool>, a: nat, from: nat, index: nat, f: nat)
    requires a > 0 && |s| >= 8 && index % a == 0 && Visited(s, a, from, index)
    requires f == FirstSeen(s, index + 1)
    ensures var p := NextMultiple(f, a);
            && p % a == 0 && index < p && Visited(s, a, from, p)
            && forall q :: index < q < p && q % a == 0 ==> !Visited(s, a, from, q)
  {
    hide FirstSeen;
    var p := NextMultiple(f, a);
    NextMultipleIs(f, a);
    MultipleGap(index, p, a);
    VisitedSeen(s, a, from, index);
    forall q | index < q < p && q % a == 0
      ensures !Visited(s, a, from, q)
    {
      MultipleGap(q, p, a);
      VisitedLater(s, a, from, index, q);
      assert SeenBetween(s, index + 1, q) ==> SeenBetween(s, index + 1, f);
    }
    if p - a == f {
      assert Seen(s, p - a) && !Visited(s, a, from, p - a);
    } else {
      assert (if from <= p - a then p - a + 1 else from) <= f < p;
    }
  }

  /** When the search from past a refused proposal fails, the pass has proposed all it can. */
  lemma PassEnds(s: seq<bool>, a: nat, from: nat, index: nat)
    requires a > 0 && |s| >= 8 && index % a == 0 && Visited(s, a, from, index)
    requires FirstSeen(s, index + 1) == -1
    ensures forall q :: index < q && q % a == 0 ==> !Visited(s, a, from, q)
  {
    forall q | index < q && q % a == 0
      ensures !Visited(s, a, from, q)
    {
      VisitedLater(s, a, from, index, q);
    }
  }

  lemma PassEmpty(s: seq<bool>, a: nat, from: nat)
    requires a > 0 && |s| >= 8 && FirstSeen(s, from) == -1
    ensures forall q: nat :: !Visited(s, a, from, q)
  {
    forall q: nat
      ensures !Visited(s, a, from, q)
    {
      if Visited(s, a, from, q) {
        VisitedSeen(s, a, from, q);
      }
    }
  }

  // ----- the scan as a whole

  /** Where a pass stands: at a proposal, with nothing below it serving the request. */
  ghost predicate Scanning(s: seq<bool>, a: nat, from: nat, n: nat, index: nat)
    requires a > 0
  {
    index % a == 0 && Visited(s, a, from, index) && forall q :: 0 <= q < index ==> !Serves(s, a, from, n, q)
  }

  /** A pass has neither served the request nor left the map. */
  ghost predicate Exhausted(s: seq<bool>, a: nat, from: nat, n: nat)
    requires a > 0
  {
    !ServedIn(s, a, from, n) && !Over(s, a, from)
  }

  /** Where the scan stands: in its first pass, at frame 0 after a failed search, or in a later
    pass. */
  datatype Stage = First | Restart | Later

  ghost predicate Standing(s: seq<bool>, a: nat, n: nat, g: Stage, index: nat)
    requires a > 0
  {
    match g
    case First => Scanning(s, a, a, n, index)
    case Restart => Exhausted(s, a, a, n) && index == 0
    case Later => Exhausted(s, a, a, n) && !RunFree(s, 0, n) && Scanning(s, a, 1, n, index)
  }

  function StagesLeft(g: Stage): nat {
    match g
    case First => 2
    case Restart => 1
    case Later => 0
  }

  /** Where the scan goes from search result `f`: a failed search leads to frame 0. */
  function Proposed(f: int, a: nat): nat
    requires a > 0 && f >= -1
  {
    if f == -1 then 0 else NextMultiple(f, a)
  }

  lemma PassStep(s: seq<bool>, a: nat, from: nat, n: nat, index: nat)
    requires a > 0 && |s| >= 8 && Scanning(s, a, from, n, index) && index <= |s| && !RunFree(s, index, n)
    ensures var f := FirstSeen(s, index + 1);
            if f == -1 then Exhausted(s, a, from, n)
            else index < NextMultiple(f, a) && Scanning(s, a, from, n, NextMultiple(f, a))
  {
    hide FirstSeen, Visited, RunFree, NextMultiple;
    var f := FirstSeen(s, index + 1);
    if f == -1 {
      PassEnds(s, a, from, index);
    } else {
      ScanAdvances(s, a, from, index, f);
    }
  }

  lemma PassStart(s: seq<bool>, a: nat, from: nat, n: nat)
    requires a > 0 && |s| >= 8
    ensures var f := FirstSeen(s, from);
            if f == -1 then Exhausted(s, a, from, n) else Scanning(s, a, from, n, NextMultiple(f, a))
  {
    hide FirstSeen, Visited, RunFree, NextMultiple;
    var f := FirstSeen(s, from);
    if f == -1 {
      PassEmpty(s, a, from);
    } else {
      ScanStarts(s, a, from, f);
    }
  }

  lemma ScanFirst(s: seq<bool>, a: nat, n: nat) returns (g: Stage)
    requires a > 0 && |s| >= 8
    ensures Standing(s, a, n, g, Proposed(FirstSeen(s, a), a))
  {
    hide FirstSeen, Scanning, Exhausted;
    PassStart(s, a, a, n);
    g := if FirstSeen(s, a) == -1 then Restart else First;
  }

  /** One refusal further.  Only a scan that never ends comes back to frame 0 a second time. */
  lemma ScanNext(s: seq<bool>, a: nat, n: nat, g: Stage, index: nat) returns (g': Stage)
    requires a > 0 && |s| >= 8 && Standing(s, a, n, g, index) && index <= |s| && !RunFree(s, index, n)
    ensures var p := Proposed(FirstSeen(s, index + 1), a);
            && Standing(s, a, n, g', p)
            && (Ends(s, a, n) ==> StagesLeft(g') < StagesLeft(g) || (g' == g && index < p))
  {
    hide FirstSeen, Scanning, RunFree;
    var f := FirstSeen(s, index + 1);
    match g
    case First =>
      PassStep(s, a, a, n, index);
      g' := if f == -1 then Restart else First;
    case Restart =>
      PassStart(s, a, 1, n);
      g' := if f == -1 then Restart else Later;
    case Later =>
      PassStep(s, a, 1, n, index);
      g' := if f == -1 then Restart else Later;
  }

  /** A scan that stops where it stands has granted that frame, or left the map for good. */
  lemma ScanStops(s: seq<bool>, a: nat, n: nat, g: Stage, index: nat)
    requires a > 0 && Standing(s, a, n, g, index)
    ensures RunFree(s, index, n) ==> index <= |s| && Granted(s, a, n, index)
    ensures index > |s| ==> Refused(s, a, n)
  {
    hide Visited;
    if RunFree(s, index, n) {
      assert g == First ==> Serves(s, a, a, n, index);
      assert g == Later ==> Serves(s, a, 1, n, index);
    } else if index > |s| {
      assert forall q: nat, from :: Serves(s, a, from, n, q) ==> q <= |s|;
    }
  }

  // ----- one-page alignment

  /** Frame `p` follows a frame seen free, and `n` frames are free from it. */
  ghost predicate Follows(s: seq<bool>, n: nat, p: nat) {
    p >= 2 && Seen(s, p - 1) && RunFree(s, p, n)
  }

  /** With one-page alignment a pass serves simply the lowest run of free frames whose
    predecessor is free too: skipping the frame after a refused proposal loses nothing. */
  lemma OnePage(s: seq<bool>, n: nat, p: nat)
    requires n > 0
    ensures LeastServing(s, 1, 1, n, p) <==> Follows(s, n, p) && forall q :: 0 <= q < p ==> !Follows(s, n, q)
  {
    forall q: nat | Follows(s, n, q)
      ensures exists r :: 0 <= r <= q && Serves(s, 1, 1, n, r)
    {
      OnePageServes(s, n, q);
    }
    forall q: nat | Serves(s, 1, 1, n, q)
      ensures Follows(s, n, q)
    {
      assert !SeenBetween(s, q, q);
    }
  }

  lemma {:induction false} OnePageServes(s: seq<bool>, n: nat, q: nat)
    requires n > 0 && Follows(s, n, q)
    ensures exists r :: 0 <= r <= q && Serves(s, 1, 1, n, r)
  {
    if Visited(s, 1, 1, q) {
      assert Serves(s, 1, 1, n, q);
    } else {
      assert Visited(s, 1, 1, q - 1);
      assert !SeenBetween(s, q - 1, q - 1);
      assert Follows(s, n, q - 1);
      OnePageServes(s, n, q - 1);
    }
  }

  /** With one-page alignment and frame 0 taken a request is never given up: it gets the lowest
    run that follows a free frame or, if there is none, the scan goes round forever. */
  lemma OnePageEnds(s: seq<bool>, n: nat)
    requires n > 0 && |s| >= 8 && s[0]
    ensures Ends(s, 1, n) <==> exists p: nat :: Follows(s, n, p)
    ensures !Refused(s, 1, n)
    ensures forall p: nat :: Granted(s, 1, n, p) <==> Follows(s, n, p) && forall q :: 0 <= q < p ==> !Follows(s, n, q)
  {
    NeverOver(s);
    forall p: nat
      ensures LeastServing(s, 1, 1, n, p) <==> Follows(s, n, p) && forall q :: 0 <= q < p ==> !Follows(s, n, q)
    {
      OnePage(s, n, p);
    }
    if ServedIn(s, 1, 1, n) {
      var p: nat :| Serves(s, 1, 1, n, p);
      LeastExists(s, 1, 1, n, p);
    }
    if p: nat :| Follows(s, n, p) {
      OnePageServes(s, n, p);
    }
  }

  /** Without such a run of one frame it depends on frame 0: it is granted if it is free, and the
    scan goes round forever if not. */
  lemma NoFrame(s: seq<bool>)
    requires |s| >= 8 && forall p: nat :: !Follows(s, 1, p)
    ensures !Refused(s, 1, 1) && (Ends(s, 1, 1) <==> !s[0])
    ensures !s[0] ==> Granted(s, 1, 1, 0)
  {
    NeverOver(s);
    if ServedIn(s, 1, 1, 1) {
      var p: nat :| Serves(s, 1, 1, 1, p);
      LeastExists(s, 1, 1, 1, p);
      var q :| 0 <= q <= p && LeastServing(s, 1, 1, 1, q);
      OnePage(s, 1, q);
    }
    assert RunFree(s, 0, 1) <==> !s[0];
  }

  lemma NeverOver(s: seq<bool>)
    requires |s| >= 8
    ensures !Over(s, 1, 1)
  {
    forall p: nat | Visited(s, 1, 1, p)
      ensures p <= |s|
    {
      VisitedSeen(s, 1, 1, p);
      assert !SeenBetween(s, p, p);
      assert Seen(s, p - 1);
    }
  }

  /** Lowest `p >= from` with `Follows(s, n, p)`, or |s| + 1. */
  ghost function LowestFrom(s: seq<bool>, n: nat, from: nat): (p: nat)
    requires from <= |s| + 1
    ensures from <= p <= |s| + 1
    ensures forall q :: from <= q < p ==> !Follows(s, n, q)
    ensures p <= |s| ==> Follows(s, n, p)
    decreases |s| + 1 - from
  {
    if from > |s| || Follows(s, n, from) then from else LowestFrom(s, n, from + 1)
  }

  /** The single frame that a one-page request gets. */
  ghost function LowestFrame(s: seq<bool>): (p: nat)
    ensures HasFrame(s) ==> Follows(s, 1, p) && forall q :: 0 <= q < p ==> !Follows(s, 1, q)
  {
    LowestFrom(s, 1, 0)
  }

  ghost predicate HasFrame(s: seq<bool>) {
    exists p: nat :: Follows(s, 1, p)
  }

  /** A single claim leaves the frame before it free, and the next single claim can take neither
    that one nor the frame after. */
  lemma HoleLeft(s: seq<bool>)
    requires HasFrame(s)
    ensures var p := LowestFrame(s);
            && 2 <= p < |s| && !s[p - 1]
            && !Follows(s[p := true], 1, p - 1) && !Follows(s[p := true], 1, p + 1)
  {
    var p := LowestFrame(s);
    assert Follows(s, 1, p);
    assert !s[p];
    if Follows(s[p := true], 1, p - 1) {
      assert Follows(s, 1, p - 1);
      assert false;
    }
  }

  // ----- when the scan never ends

  /** The `k`-th frame tried by the scan, if all before it were refused. */
  function Proposal(s: seq<bool>, a: nat, k: nat): nat
    requires a > 0 && |s| >= 8
  {
    Proposed(FirstSeen(s, if k == 0 then a else Proposal(s, a, k - 1) + 1), a)
  }

  ghost predicate Stops(s: seq<bool>, a: nat, n: nat, k: nat)
    requires a > 0 && |s| >= 8
  {
    RunFree(s, Proposal(s, a, k), n) || Proposal(s, a, k) > |s|
  }

  /** The scan stops, by serving the request or by leaving the map, if and only if one of its
    first two passes or frame 0 does so.  Otherwise it goes round forever. */
  lemma ScanEnds(s: seq<bool>, a: nat, n: nat)
    requires a > 0 && |s| >= 8
    ensures (exists k: nat :: Stops(s, a, n, k)) <==> Ends(s, a, n)
  {
    hide Standing, Granted, Refused, Ends;
    if k: nat :| Stops(s, a, n, k) {
      var j := FirstStop(s, a, n, k);
      var g := StandsAt(s, a, n, j);
      ScanStops(s, a, n, g, Proposal(s, a, j));
      EndsOneWay(s, a, n);
    }
    if Ends(s, a, n) {
      var g := ScanFirst(s, a, n);
      assert Proposal(s, a, 0) == Proposed(FirstSeen(s, a), a);
      var k := StopReached(s, a, n, g, 0);
    }
  }

  lemma {:induction false} FirstStop(s: seq<bool>, a: nat, n: nat, k: nat) returns (j: nat)
    requires a > 0 && |s| >= 8 && Stops(s, a, n, k)
    ensures Stops(s, a, n, j) && forall i: nat :: i < j ==> !Stops(s, a, n, i)
  {
    hide Stops;
    j := k;
    if i: nat :| i < k && Stops(s, a, n, i) {
      j := FirstStop(s, a, n, i);
    }
  }

  lemma {:induction false} StandsAt(s: seq<bool>, a: nat, n: nat, k: nat) returns (g: Stage)
    requires a > 0 && |s| >= 8 && forall i: nat :: i < k ==> !Stops(s, a, n, i)
    ensures Standing(s, a, n, g, Proposal(s, a, k))
  {
    hide Standing, RunFree, FirstSeen, Proposed, Ends;
    if k == 0 {
      g := ScanFirst(s, a, n);
    } else {
      var g1 := StandsAt(s, a, n, k - 1);
      assert !Stops(s, a, n, k - 1);
      g := ScanNext(s, a, n, g1, Proposal(s, a, k - 1));
    }
  }

  lemma {:induction false} StopReached(s: seq<bool>, a: nat, n: nat, g: Stage, k: nat) returns (j: nat)
    requires a > 0 && |s| >= 8 && Ends(s, a, n) && Standing(s, a, n, g, Proposal(s, a, k))
    ensures Stops(s, a, n, j)
    decreases StagesLeft(g), |s| + 1 - Proposal(s, a, k)
  {
    hide Standing, RunFree, FirstSeen, Proposed, Ends;
    if Stops(s, a, n, k) {
      j := k;
    } else {
      var g1 := ScanNext(s, a, n, g, Proposal(s, a, k));
      assert Proposal(s, a, k + 1) == Proposed(FirstSeen(s, Proposal(s, a, k) + 1), a);
      j := StopReached(s, a, n, g1, k + 1);
    }
  }

  /** A map with two free frames that pass one cannot use: the second pass serves the request. */
  lemma SecondPassServes()
    ensures var s := seq(64, k => k != 1 && k != 2);
            !ServedIn(s, 2, 2, 1) && Granted(s, 2, 1, 2)
  {
    var s := seq(64, k => k != 1 && k != 2);
    assert Seen(s, 1) && s[0];
    assert SeenBetween(s, 1, 2);
    assert Serves(s, 2, 1, 1, 2);
    forall p: nat | p % 2 == 0 && Visited(s, 2, 2, p)
      ensures p == 4
    {
      assert forall f :: Seen(s, f) ==> f == 1 || f == 2;
      VisitedSeen(s, 2, 2, p);
      assert !SeenBetween(s, 2, 2);
    }
    assert !RunFree(s, 0, 1) && s[4];
  }

  /** A map with only frame 0 free: the request is served there, and answered 0. */
  lemma ZeroServed()
    ensures var s := seq(64, k => k != 0);
            Granted(s, 1, 1, 0) && !Refused(s, 1, 1)
  {
    var s := seq(64, k => k != 0);
    assert !s[0];
    assert forall p: nat :: !Follows(s, 1, p);
    NoFrame(s);
  }

  /** A map without a free frame: the scan refuses frame 0 forever. */
  lemma FullMapLoops(k: nat)
    ensures var s := seq(64, _ => true);
            Proposal(s, 1, k) == 0 && !Stops(s, 1, 1, k) && !Ends(s, 1, 1)
  {
    var s := seq(64, _ => true);
    assert forall i: nat :: FirstSeen(s, i) == -1;
    assert s[0];
    PassEmpty(s, 1, 1);
  }

  // ----- runs of claims and releases

  datatype ClaimOp = Aligned(n: nat, a: nat) | Fixed(p: nat, n: nat) | GiveBack(p: nat)

  /** The frame map and the outstanding allocations: first frame to number of frames. */
  datatype Claims = Claims(taken: seq<bool>, out: map<nat, nat>)

  ghost predicate Sound(c: Claims) {
    && (forall p :: p in c.out ==> c.out[p] > 0 && RunTaken(c.taken, p, c.out[p]))
    && (forall p, q :: p in c.out && q in c.out && p < q ==> p + c.out[p] <= q)
  }

  ghost function Claimed(c: Claims, p: nat, n: nat): Claims
    requires p + n <= |c.taken|
  {
    Claims(Marked(c.taken, p, n, true), c.out[p := n])
  }

  /** A claim that is given up, or a fixed one that meets a taken frame or passes the end, changes
    nothing. */
  ghost predicate ClaimStep(c: Claims, op: ClaimOp, c': Claims) {
    match op
    case Aligned(n, a) =>
      && n > 0 && a > 0
      && ((Refused(c.taken, a, n) && c' == c)
          || exists p: nat :: Granted(c.taken, a, n, p) && p + n <= |c.taken| && c' == Claimed(c, p, n))
    case Fixed(p, n) => n > 0 && c' == if RunFree(c.taken, p, n) then Claimed(c, p, n) else c
    case GiveBack(p) =>
      && p in c.out && p + c.out[p] <= |c.taken|
      && c' == Claims(Marked(c.taken, p, c.out[p], false), c.out - {p})
  }

  /** The outstanding allocations after a claim of `n` frames: frame `p`, unless it failed. */
  function Outstanding(out: map<nat, nat>, ok: bool, p: nat, n: nat): map<nat, nat> {
    if ok then out[p := n] else out
  }

  /** What a claim for `n` aligned frames does to the map is a step, whatever is outstanding. */
  lemma AlignedSteps(s: seq<bool>, a: nat, n: nat, p: nat)
    requires n > 0 && a > 0 && (Refused(s, a, n) || Granted(s, a, n, p))
    ensures var ok := !Refused(s, a, n);
            && (ok ==> p + n <= |s|)
            && forall out :: ClaimStep(Claims(s, out), Aligned(n, a),
                                       Claims(if ok then Marked(s, p, n, true) else s, Outstanding(out, ok, p, n)))
  {
    hide Granted, Refused;
    EndsOneWay(s, a, n);
  }

  lemma ClaimSound(c: Claims, p: nat, n: nat)
    requires Sound(c) && n > 0 && RunFree(c.taken, p, n)
    ensures p !in c.out && Sound(Claimed(c, p, n))
  {
    var c' := Claimed(c, p, n);
    assert !c.taken[p];
    forall q | q in c.out
      ensures q + c.out[q] <= p || p + n <= q
    {
      assert RunTaken(c.taken, q, c.out[q]);
      assert c.taken[q];
    }
  }

  ghost predicate Gains(c: Claims, c': Claims, n: nat, a: nat, p: nat) {
    a > 0 && p % a == 0 && p !in c.out && c'.out == c.out[p := n]
  }

  ghost predicate AlignedGains(c: Claims, op: ClaimOp, c': Claims) {
    op.Aligned? && op.a > 0 && !Refused(c.taken, op.a, op.n) ==>
      exists p :: p in c'.out && Gains(c, c', op.n, op.a, p)
  }

  /** What a step of a run keeps, and what an aligned claim gets. */
  lemma ClaimStepSound(c: Claims, op: ClaimOp, c': Claims)
    requires Sound(c) && ClaimStep(c, op, c')
    ensures Sound(c') && |c'.taken| == |c.taken|
    ensures AlignedGains(c, op, c')
  {
    hide Granted, Refused;
    match op
    case Aligned(n, a) =>
      EndsOneWay(c.taken, a, n);
      if !Refused(c.taken, a, n) {
        var p: nat :| Granted(c.taken, a, n, p) && p + n <= |c.taken| && c' == Claimed(c, p, n);
        ClaimSound(c, p, n);
        assert p in c'.out && Gains(c, c', n, a, p);
      }
    case Fixed(p, n) =>
      if RunFree(c.taken, p, n) {
        ClaimSound(c, p, n);
      }
    case GiveBack(p) =>
      assert forall q :: q in c'.out ==> q in c.out && RunTaken(c.taken, q, c.out[q]);
  }

  /** Over any run, outstanding allocations never share a frame and stay marked, and every
    aligned claim that was not given up got a multiple of its alignment. */
  lemma {:induction false} ClaimsStaySound(cs: seq<Claims>, ops: seq<ClaimOp>, k: nat)
    requires |cs| == |ops| + 1 && k < |cs| && Sound(cs[0])
    requires forall j :: 0 <= j < |ops| ==> ClaimStep(cs[j], ops[j], cs[j + 1])
    ensures Sound(cs[k]) && |cs[k].taken| == |cs[0].taken|
    ensures k < |ops| ==> AlignedGains(cs[k], ops[k], cs[k + 1])
  {
    hide Sound, ClaimStep, AlignedGains;
    if k == 0 {
    } else {
      ClaimsStaySound(cs, ops, k - 1);
      ClaimStepSound(cs[k - 1], ops[k - 1], cs[k]);
    }
    if k < |ops| {
      ClaimStepSound(cs[k], ops[k], cs[k + 1]);
    }
  }

  /** Marking all pages of a region but the last equals marking all of them exactly when the
    last page has the value already. */
  lemma LastPageLeftOut(s: seq<bool>, p: nat, n: nat, value: bool)
    requires n > 0 && p + n <= |s|
    ensures Marked(s, p, n - 1, value) == Marked(s, p, n, value) <==> s[p + n - 1] == value
  {
    var a, b := Marked(s, p, n - 1, value), Marked(s, p, n, value);
    assert a[p + n - 1] == s[p + n - 1] && b[p + n - 1] == value;
    if s[p + n - 1] == value {
      assert forall k :: 0 <= k < |s| ==> a[k] == b[k];
    }
  }

  /** Pages 0 and 1 made available on a fresh map: only page 0 is. */
  lemma LastPageStaysTaken()
    ensures var s := seq(64, _ => true);
            var r := Marked(s, 0, 0x2000 / 4096 - 1, false);
            !r[0] && r[1]
  {
  }
}
