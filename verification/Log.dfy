/** The number printer and reader of the kernel log. */
module LogModel {
  import opened NumberText

  // Numbers are 32 bits wide.

  /** `buf[off..]` holds `t` and a terminator. */
  ghost predicate Holds(buf: array<char>, off: nat, t: string)
    reads buf
  {
    off + |t| < buf.Length && buf[off..off + |t|] == t && buf[off + |t|] == 0 as char
  }

  /** The value `parse_num` reads: the decimal prefix, wrapped to 32 bits. */
  function Read(s: string): nat {
    Value(DecimalPrefix(s), 10) % 0x1_0000_0000
  }

  /** `parse_num` of what `parse_u` printed in base 10 is the number, for every 32-bit number. */
  lemma ReadsBack(num: nat, fill: char, width: nat)
    requires num < 0x1_0000_0000
    requires fill == 0 as char || fill == '0' || width <= |Digits(num, 10)|
    ensures Read(Text(num, 10, fill, width)) == num
  {
    hide Digits, Text, Value, DecimalPrefix;
    PrintThenParse(num, fill, width);
  }

  /** Nothing is read past the digits that `t` begins with. */
  lemma {:induction false} PrefixStops(t: string, rest: string)
    requires forall k :: 0 <= k < |t| ==> '0' <= t[k] <= '9'
    requires rest == "" || rest[0] < '0' || '9' < rest[0]
    ensures DecimalPrefix(t + rest) == t
  {
    if t == "" {
      assert t + rest == rest;
    } else {
      assert (t + rest)[1..] == t[1..] + rest;
      PrefixStops(t[1..], rest);
    }
  }

  /** Every decimal digit counts for its face value, and nothing that follows the digits counts. */
  lemma ReadStep(t: string, c: char, rest: string)
    requires forall k :: 0 <= k < |t| ==> '0' <= t[k] <= '9'
    requires '0' <= c <= '9' && (rest == "" || rest[0] < '0' || '9' < rest[0])
    ensures Read(rest) == 0
    ensures Read(t + [c] + rest) == (Read(t) * 10 + (c - '0') as nat) % 0x1_0000_0000
  {
    hide DecimalPrefix;
    PrefixStops("", rest);
    assert "" + rest == rest;
    PrefixStops(t, "");
    assert t + "" == t;
    PrefixStops(t + [c], rest);
    assert (t + [c])[..|t|] == t;
    WrapStep(Value(t, 10), (c - '0') as nat);
  }

  /** A number in front of anything that does not go on with a digit is read as that number. */
  lemma ReadNumber(num: nat, rest: string)
    requires rest == "" || rest[0] < '0' || '9' < rest[0]
    ensures Read(Reversed(Digits(num, 10)) + rest) == num % 0x1_0000_0000
  {
    hide Digits, Value, DecimalPrefix;
    var t := Reversed(Digits(num, 10));
    DigitsDecimal(num);
    forall k | 0 <= k < |t|
      ensures '0' <= t[k] <= '9'
    {
      assert t[k] == Digits(num, 10)[|t| - 1 - k];
      assert IsDecimal(t[k]);
    }
    PrefixStops(t, rest);
    DigitsDenote(num, 10);
  }

  lemma WrapStep(x: nat, d: nat)
    ensures (x % 0x1_0000_0000 * 10 + d) % 0x1_0000_0000 == (x * 10 + d) % 0x1_0000_0000
  {
    var q, r := x / 0x1_0000_0000, x % 0x1_0000_0000;
    assert x * 10 + d == 0x1_0000_0000 * (q * 10) + (r * 10 + d);
  }

  lemma {:induction false} DigitsStep(num: nat, base: nat, done: string)
    requires 2 <= base <= 255
    ensures done + Digits(num, base)
            == (done + [DigitChar(num % base)]) + if num / base == 0 then "" else Digits(num / base, base)
  {
    hide Digits, DigitChar;
    DigitsUnfold(num, base);
  }

  /** Digits still to be written. */
  ghost function Rest(n: nat, base: nat, more: bool): string
    requires 2 <= base <= 255
  {
    if more then Digits(n, base) else ""
  }

  lemma ReversedBy(s: string, t: string)
    requires |s| == |t| && forall k :: 0 <= k < |s| ==> s[k] == t[|t| - 1 - k]
    ensures s == Reversed(t)
  {
    hide Reversed;
  }

  lemma SignHolds(buf: array<char>, off: nat, t: string)
    requires off < buf.Length && buf[off] == '-' && Holds(buf, off + 1, t)
    ensures Holds(buf, off, "-" + t)
  {
    assert buf[off..off + 1 + |t|] == [buf[off]] + buf[off + 1..off + 1 + |t|];
  }

  class Log {
    /** `parse_u`: digits from the least significant, then the fill, then an in-place reversal. */
    method ParseU(num: nat, base: nat, buf: array?<char>, off: nat, fill: char, width: nat) returns (ok: bool)
      requires 2 <= base <= 255
      requires buf != null ==> off + |Text(num, base, fill, width)| < buf.Length
      modifies buf
      ensures ok <==> buf != null
      ensures buf != null ==>
                && Holds(buf, off, Text(num, base, fill, width))
                && (forall k :: 0 <= k < buf.Length && !(off <= k <= off + |Text(num, base, fill, width)|) ==>
                      buf[k] == old(buf[k]))
    {
      hide Digits, DigitChar, Padding, Reversed;
      if buf == null {
        return false;
      }
      var p := WriteDigits(num, base, buf, off);
      p := WriteFill(buf, off, p, fill, width);
      buf[p] := 0 as char;
      ReverseRange(buf, off, p);
      ok := true;
    }

    /** `parse_s`: a sign, then the magnitude. */
    method ParseS(num: int, base: nat, buf: array?<char>, off: nat, fill: char, width: nat) returns (ok: bool)
      requires 2 <= base <= 255
      requires buf != null ==> off + |SignedText(num, base, fill, width)| < buf.Length
      modifies buf
      ensures ok <==> buf != null
      ensures buf != null ==> Holds(buf, off, SignedText(num, base, fill, width))
    {
      hide Text, Digits, Holds;
      if buf == null {
        return false;
      }
      if num < 0 {
        buf[off] := '-';
        var w := if width == 0 then 0 else width - 1;
        ok := ParseU(-num, base, buf, off + 1, fill, w);
        SignHolds(buf, off, Text(-num, base, fill, w));
      } else {
        ok := ParseU(num, base, buf, off, fill, width);
      }
    }

    method WriteDigits(num: nat, base: nat, buf: array<char>, off: nat) returns (p: nat)
      requires 2 <= base <= 255 && off + |Digits(num, base)| < buf.Length
      modifies buf
      ensures p == off + |Digits(num, base)| && buf[off..p] == Digits(num, base)
      ensures forall k :: 0 <= k < buf.Length && !(off <= k < p) ==> buf[k] == old(buf[k])
    {
      hide Digits, DigitChar;
      ghost var all := Digits(num, base);
      var n: nat := num;
      var more := true;
      p := off;
      while more
        invariant off <= p && p + |Rest(n, base, more)| == off + |all| < buf.Length
        invariant buf[off..p] + Rest(n, base, more) == all
        invariant forall k :: 0 <= k < buf.Length && !(off <= k < p) ==> buf[k] == old(buf[k])
        decreases n, more
      {
        DigitsStep(n, base, buf[off..p]);
        DigitFacts(n, base);
        ghost var done := buf[off..p];
        buf[p] := DigitChar(n % base);
        p := p + 1;
        assert buf[off..p] == done + [DigitChar(n % base)];
        n := n / base;
        more := n != 0;
      }
    }

    method WriteFill(buf: array<char>, off: nat, from: nat, fill: char, width: nat) returns (p: nat)
      requires off <= from && from + |Padding(from - off, fill, width)| < buf.Length
      modifies buf
      ensures p == from + |Padding(from - off, fill, width)|
      ensures buf[off..p] == old(buf[off..from]) + Padding(from - off, fill, width)
      ensures forall k :: 0 <= k < buf.Length && !(from <= k < p) ==> buf[k] == old(buf[k])
    {
      p := from;
      if fill != 0 as char {
        while p - off < width
          invariant from <= p && (p == from || p - off <= width) && p <= from + |Padding(from - off, fill, width)|
          invariant forall k :: from <= k < p ==> buf[k] == fill
          invariant forall k :: 0 <= k < buf.Length && !(from <= k < p) ==> buf[k] == old(buf[k])
        {
          buf[p] := fill;
          p := p + 1;
        }
      }
    }

    method ReverseRange(buf: array<char>, off: nat, end: nat)
      requires off < end <= buf.Length
      modifies buf
      ensures buf[off..end] == Reversed(old(buf[off..end]))
      ensures forall k :: 0 <= k < buf.Length && !(off <= k < end) ==> buf[k] == old(buf[k])
    {
      hide Reversed;
      ghost var was := old(buf[off..end]);
      var p1, p2 := off, end - 1;
      while p1 < p2
        invariant off <= p1 <= p2 + 1 && p2 < end && p1 - off == end - 1 - p2
        invariant forall k :: off <= k < p1 ==> buf[k] == was[end - 1 - k]
        invariant forall k :: p2 < k < end ==> buf[k] == was[end - 1 - k]
        invariant forall k :: p1 <= k <= p2 ==> buf[k] == was[k - off]
        invariant forall k :: 0 <= k < buf.Length && !(off <= k < end) ==> buf[k] == old(buf[k])
      {
        buf[p1], buf[p2] := buf[p2], buf[p1];
        p1 := p1 + 1;
        p2 := p2 - 1;
      }
      forall k | 0 <= k < end - off
        ensures buf[off..end][k] == was[|was| - 1 - k]
      {
        assert buf[off + k] == was[end - 1 - (off + k)];
      }
      ReversedBy(buf[off..end], was);
    }

    /** `parse_num` on the terminated string at `off`. */
    method ParseNum(str: array<char>, off: nat, ghost t: string) returns (val: nat)
      requires Holds(str, off, t)
      ensures val == Read(t)
    {
      hide Value, DecimalPrefix, CharDigit, AddDigit;
      val := 0;
      var p := off;
      ghost var done := "";
      PrefixWhole(t);
      while IsDecimal(str[p])
        invariant off <= p <= off + |t|
        invariant done + DecimalPrefix(t[p - off..]) == DecimalPrefix(t)
        invariant val == Value(done, 10) % 0x1_0000_0000
        decreases off + |t| - p
      {
        CharAt(str, off, t, p);
        PrefixStep(t, p - off, done);
        AddDigitWraps(Value(done, 10), str[p]);
        val := AddDigit(val, str[p]);
        done := done + [str[p]];
        p := p + 1;
      }
      CharAt(str, off, t, p);
      PrefixEnds(t, p - off, done);
    }
  }

  /** `val *= 10; val += *str - '0'`, wrapping at 32 bits. */
  function AddDigit(val: nat, c: char): nat
    requires IsDecimal(c)
  {
    (val * 10 % 0x1_0000_0000 + (c - '0') as nat) % 0x1_0000_0000
  }

  lemma AddDigitWraps(x: nat, c: char)
    requires IsDecimal(c)
    ensures AddDigit(x % 0x1_0000_0000, c) == (x * 10 + CharDigit(c)) % 0x1_0000_0000
  {
    var r := x % 0x1_0000_0000;
    WrapAdd(r * 10, CharDigit(c));
    WrapStep(x, CharDigit(c));
  }

  lemma Wraps(q: nat, x: nat)
    ensures (0x1_0000_0000 * q + x) % 0x1_0000_0000 == x % 0x1_0000_0000
  {
  }

  lemma WrapAdd(x: nat, d: nat)
    ensures (x % 0x1_0000_0000 + d) % 0x1_0000_0000 == (x + d) % 0x1_0000_0000
  {
    var q, r := x / 0x1_0000_0000, x % 0x1_0000_0000;
    assert x + d == 0x1_0000_0000 * q + (r + d);
    Wraps(q, r + d);
  }

  lemma CharAt(str: array<char>, off: nat, t: string, p: nat)
    requires Holds(str, off, t) && off <= p <= off + |t|
    ensures str[p] == if p < off + |t| then t[p - off] else 0 as char
  {
    if p < off + |t| {
      assert str[p] == str[off..off + |t|][p - off];
    }
  }

  lemma PrefixWhole(t: string)
    ensures "" + DecimalPrefix(t[0..]) == DecimalPrefix(t) && Value("", 10) == 0
  {
    assert t[0..] == t;
  }

  lemma PrefixStep(t: string, k: nat, done: string)
    requires k < |t| && IsDecimal(t[k])
    ensures done + [t[k]] + DecimalPrefix(t[k + 1..]) == done + DecimalPrefix(t[k..])
    ensures Value(done + [t[k]], 10) == Value(done, 10) * 10 + CharDigit(t[k])
  {
    assert t[k..][1..] == t[k + 1..];
    assert (done + [t[k]])[..|done|] == done;
  }

  lemma PrefixEnds(t: string, k: nat, done: string)
    requires k <= |t| && (k < |t| ==> !IsDecimal(t[k]))
    ensures done + DecimalPrefix(t[k..]) == done
  {
    assert DecimalPrefix(t[k..]) == "";
  }
}
