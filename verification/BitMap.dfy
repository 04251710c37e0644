/** A packed bit array: eight bits to a byte, bit `k` in byte `k / 8`. */
module BitMapModel {

  /** The byte with only bit `i` set. */
  function Mask(i: nat): bv8
    requires i < 8
  {
    (1 as bv8) << i
  }

  function BitOf(b: bv8, i: nat): bool
    requires i < 8
  {
    b & Mask(i) != 0
  }

  function WithBit(b: bv8, i: nat, value: bool): bv8
    requires i < 8
  {
    if value then b | Mask(i) else b & !Mask(i)
  }

  lemma MaskCases(i: nat)
    requires i < 8
    ensures Mask(i) == if i == 0 then 1 else if i == 1 then 2 else if i == 2 then 4 else if i == 3 then 8
                       else if i == 4 then 16 else if i == 5 then 32 else if i == 6 then 64 else 128
  {
  }

  /** Setting one bit of a byte leaves its other seven bits alone. */
  lemma WithBitAt(b: bv8, i: nat, value: bool, j: nat)
    requires i < 8 && j < 8
    ensures BitOf(WithBit(b, i, value), j) == if j == i then value else BitOf(b, j)
  {
    MaskCases(i);
    MaskCases(j);
  }

  // ----- the bytes as a sequence of booleans

  function Unpack(bytes: seq<bv8>): (s: seq<bool>)
    ensures |s| == 8 * |bytes|
    ensures forall k :: 0 <= k < |s| ==> s[k] == BitOf(bytes[k / 8], k % 8)
  {
    seq(8 * |bytes|, k requires 0 <= k < 8 * |bytes| => BitOf(bytes[k / 8], k % 8))
  }

  /** Writing one bit of one byte changes exactly one element of the sequence. */
  lemma UnpackSet(bytes: seq<bv8>, k: nat, value: bool)
    requires k < 8 * |bytes|
    ensures Unpack(bytes[k / 8 := WithBit(bytes[k / 8], k % 8, value)]) == Unpack(bytes)[k := value]
  {
    var bytes' := bytes[k / 8 := WithBit(bytes[k / 8], k % 8, value)];
    forall j | 0 <= j < 8 * |bytes|
      ensures Unpack(bytes')[j] == Unpack(bytes)[k := value][j]
    {
      if j / 8 == k / 8 {
        WithBitAt(bytes[k / 8], k % 8, value, j % 8);
        assert j == k <==> j % 8 == k % 8;
      }
    }
  }

  // ----- searching

  /** Least index from `from` up to and including `limit` that holds `value`, or -1. */
  function FirstIn(s: seq<bool>, value: bool, from: nat, limit: nat): (r: int)
    requires limit < |s|
    ensures r == -1 || from <= r <= limit
    ensures r != -1 ==> s[r] == value && forall k :: from <= k < r ==> s[k] != value
    ensures r == -1 ==> forall k :: from <= k <= limit ==> s[k] != value
    decreases limit + 1 - from
  {
    if from > limit then -1
    else if s[from] == value then from
    else FirstIn(s, value, from + 1, limit)
  }

  /** The search stops at index `byteCount`, one eighth of the map.  It gives the answer of a
    search of the whole map exactly when the value occurs within the limit, or nowhere. */
  lemma SearchLimit(s: seq<bool>, value: bool, from: nat)
    requires |s| >= 8 && |s| % 8 == 0
    ensures FirstIn(s, value, from, |s| / 8) == FirstIn(s, value, from, |s| - 1)
            <==> (exists k :: from <= k <= |s| / 8 && s[k] == value) || (forall k :: from <= k < |s| ==> s[k] != value)
  {
    var whole, part := FirstIn(s, value, from, |s| - 1), FirstIn(s, value, from, |s| / 8);
    if k :| from <= k <= |s| / 8 && s[k] == value {
      assert part != -1 && whole != -1;
      assert whole <= k && part <= k;
      assert part <= whole <= part;
    } else if k :| from <= k < |s| && s[k] == value {
      assert whole != -1 && part == -1;
    }
  }

  /** A map of 64 bits whose only clear bit is number 20: the search does not find it. */
  lemma SearchMisses()
    ensures var s := seq(64, k => k != 20);
            FirstIn(s, false, 0, |s| / 8) == -1 && FirstIn(s, false, 0, |s| - 1) == 20
  {
    var s := seq(64, k => k != 20);
    assert s[20] == false;
  }

  // ----- the bitmap object

  class BitMap {
    const memory: array<bv8>

    ghost function Bits(): seq<bool>
      reads memory
    {
      Unpack(memory[..])
    }

    constructor (memory: array<bv8>)
      ensures this.memory == memory
    {
      this.memory := memory;
    }

    function Size(): nat {
      8 * memory.Length
    }

    method SetAll(value: bool)
      modifies memory
      ensures Bits() == seq(Size(), _ => value)
    {
      var fill: bv8 := if value then 0xFF else 0;
      for i := 0 to memory.Length
        invariant forall j :: 0 <= j < i ==> memory[j] == fill
      {
        memory[i] := fill;
      }
      forall k | 0 <= k < Size()
        ensures Bits()[k] == value
      {
        MaskCases(k % 8);
      }
    }

    /** `get`; an index past the last byte halts the kernel. */
    method Get(index: nat) returns (bit: bool)
      requires index < Size()
      ensures bit == Bits()[index]
    {
      bit := memory[index / 8] & Mask(index % 8) != 0;
    }

    /** `set`; an index past the last byte halts the kernel. */
    method Set(index: nat, value: bool)
      requires index < Size()
      modifies memory
      ensures Bits() == old(Bits())[index := value]
    {
      hide Unpack, WithBit;
      UnpackSet(memory[..], index, value);
      memory[index / 8] := WithBit(memory[index / 8], index % 8, value);
      assert memory[..] == old(memory[..])[index / 8 := WithBit(old(memory[..])[index / 8], index % 8, value)];
    }

    /** `getIndexOf`: the least index holding `value`, from `start` and within the limit. */
    method GetIndexOf(value: bool, start: int) returns (r: int)
      requires memory.Length > 0
      ensures r == FirstIn(Bits(), value, if start < 0 then 0 else start, memory.Length)
    {
      var from := if start < 0 then 0 else start;
      ghost var first := FirstIn(Bits(), value, from, memory.Length);
      while from <= memory.Length
        invariant 0 <= from
        invariant first == FirstIn(Bits(), value, from, memory.Length)
      {
        var bit := Get(from);
        if bit == value {
          return from;
        }
        from := from + 1;
      }
      return -1;
    }
  }
}
