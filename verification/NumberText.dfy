/** Printing numbers into a buffer and reading them back, on values. */
module NumberText {

  /** The byte `parse_u` writes for a digit: past base 36 the letters run out into other characters. */
  function DigitChar(d: nat): char
    requires d < 256
  {
    if d < 10 then '0' + d as char else ((d + 87) % 256) as char
  }

  function CharDigit(c: char): nat {
    if '0' <= c <= '9' then (c - '0') as nat else if 'a' <= c <= 'z' then (c - 'a') as nat + 10 else 0
  }

  lemma DigitBack(d: nat)
    requires d < 36
    ensures CharDigit(DigitChar(d)) == d
    ensures d < 10 <==> '0' <= DigitChar(d) <= '9'
    ensures DigitChar(d) != 0 as char && DigitChar(d) != '-'
  {
  }

  /** The characters of `num`, least significant digit first; at least one. */
  function Digits(num: nat, base: nat): (s: string)
    requires 2 <= base <= 255
    ensures |s| > 0
    decreases num
  {
    DigitFacts(num, base);
    [DigitChar(num % base)] + if num / base == 0 then [] else Digits(num / base, base)
  }

  lemma DigitFacts(num: nat, base: nat)
    requires 2 <= base <= 255
    ensures 0 <= num % base < 256 && 0 <= num / base
    ensures num / base > 0 ==> num / base < num
  {
    if num / base > 0 {
      Smaller(num, base);
    }
  }

  lemma Smaller(num: nat, base: nat)
    requires base >= 2 && num / base > 0
    ensures num / base < num
  {
    var q, r := num / base, num % base;
    assert num == q * base + r;
    assert q * base >= q * 2;
  }

  function Reversed(s: string): (r: string)
    ensures |r| == |s|
    ensures forall k :: 0 <= k < |s| ==> r[k] == s[|s| - 1 - k]
  {
    if s == "" then "" else Reversed(s[1..]) + [s[0]]
  }

  /** Padding of a digit string of length `n`: none when `fill` is the null character. */
  function Padding(n: nat, fill: char, width: nat): string {
    if fill == 0 as char || width <= n then "" else seq(width - n, _ => fill)
  }

  /** What `parse_u` leaves in the buffer, terminator aside. */
  function Text(num: nat, base: nat, fill: char, width: nat): string
    requires 2 <= base <= 255
  {
    var ds := Digits(num, base);
    Reversed(ds + Padding(|ds|, fill, width))
  }

  /** What a string means in a base, most significant digit first. */
  function Value(s: string, base: nat): nat {
    if s == "" then 0 else Value(s[..|s| - 1], base) * base + CharDigit(s[|s| - 1])
  }

  lemma DivMod(num: nat, base: nat)
    requires base > 0
    ensures num == (num / base) * base + num % base
  {
  }

  lemma ReversedCons(c: char, s: string)
    ensures Reversed([c] + s) == Reversed(s) + [c]
  {
    assert ([c] + s)[1..] == s;
  }

  lemma DigitsUnfold(num: nat, base: nat)
    requires 2 <= base <= 255
    ensures Digits(num, base) == [DigitChar(num % base)] + if num / base == 0 then "" else Digits(num / base, base)
  {
  }

  lemma ValueCons(d: nat, rest: string, base: nat)
    requires d < 36
    ensures Value(Reversed([DigitChar(d)] + rest), base) == Value(Reversed(rest), base) * base + d
  {
    hide DigitChar, CharDigit, Reversed;
    ReversedCons(DigitChar(d), rest);
    DigitBack(d);
    var t := Reversed(rest) + [DigitChar(d)];
    assert t[..|t| - 1] == Reversed(rest) && t[|t| - 1] == DigitChar(d);
  }

  /** The digits, most significant first, denote the number in its base. */
  lemma {:induction false} DigitsDenote(num: nat, base: nat)
    requires 2 <= base <= 36
    ensures Value(Reversed(Digits(num, base)), base) == num
    decreases num
  {
    hide Digits, DigitChar, CharDigit;
    DigitFacts(num, base);
    DigitsUnfold(num, base);
    DivMod(num, base);
    if num / base > 0 {
      DigitsDenote(num / base, base);
      ValueCons(num % base, Digits(num / base, base), base);
    } else {
      ValueCons(num % base, "", base);
      assert [DigitChar(num % base)] + "" == Digits(num, base);
      assert Value(Reversed(""), base) == 0;
    }
  }

  lemma {:induction false} ReversedConcat(a: string, b: string)
    ensures Reversed(a + b) == Reversed(b) + Reversed(a)
  {
    if a == "" {
      assert a + b == b;
    } else {
      assert (a + b)[1..] == a[1..] + b;
      ReversedConcat(a[1..], b);
    }
  }

  /** Leading zeros do not count. */
  lemma {:induction false} ZerosIgnored(n: nat, s: string, base: nat)
    ensures Value(seq(n, _ => '0') + s, base) == Value(s, base)
  {
    var z: string := seq(n, _ => '0');
    if s != "" {
      var front := s[..|s| - 1];
      assert (z + s)[..|z + s| - 1] == z + front;
      ZerosIgnored(n, front, base);
    } else if n > 0 {
      var y: string := seq(n - 1, _ => '0');
      assert z + s == z && z[..n - 1] == y + "";
      ZerosIgnored(n - 1, "", base);
    }
  }

  /** Without padding, or padded with zeros, the text denotes the number in every base. */
  lemma TextDenotes(num: nat, base: nat, fill: char, width: nat)
    requires 2 <= base <= 36 && (fill == 0 as char || fill == '0' || width <= |Digits(num, base)|)
    ensures Value(Text(num, base, fill, width), base) == num
  {
    var ds := Digits(num, base);
    var pad := Padding(|ds|, fill, width);
    ReversedConcat(ds, pad);
    DigitsDenote(num, base);
    if pad != "" {
      assert Reversed(pad) == seq(|pad|, _ => '0');
      ZerosIgnored(|pad|, Reversed(ds), base);
    } else {
      assert Reversed(pad) + Reversed(ds) == Reversed(ds);
    }
  }

  // ----- reading

  predicate IsDecimal(c: char) {
    '0' <= c <= '9'
  }

  function DecimalPrefix(s: string): string {
    if s == "" || !IsDecimal(s[0]) then "" else [s[0]] + DecimalPrefix(s[1..])
  }

  lemma {:induction false} AllDecimal(s: string)
    requires forall k :: 0 <= k < |s| ==> IsDecimal(s[k])
    ensures DecimalPrefix(s) == s
  {
    if s == "" {
    } else {
      AllDecimal(s[1..]);
    }
  }

  lemma {:induction false} DigitsDecimal(num: nat)
    ensures forall k :: 0 <= k < |Digits(num, 10)| ==> IsDecimal(Digits(num, 10)[k])
    decreases num
  {
    DigitBack(num % 10);
    if num / 10 == 0 {
    } else {
      DigitsDecimal(num / 10);
    }
  }

  /** Leading digits other than zero raise the value. */
  lemma {:induction false} DigitsRaise(z: string, s: string)
    requires forall k :: 0 <= k < |z| ==> CharDigit(z[k]) > 0
    ensures Value(z + s, 10) >= Value(s, 10) + if z == "" then 0 else 1
  {
    hide CharDigit;
    if s != "" {
      var front := s[..|s| - 1];
      assert (z + s)[..|z + s| - 1] == z + front;
      DigitsRaise(z, front);
    } else {
      assert z + s == z;
    }
  }

  /** Printing in base 10 and reading back gives the number exactly when the text is not padded
    or is padded with zeros; padded with what is no digit it reads back as 0, and padded with
    any other digit it reads back as more. */
  lemma PrintThenParse(num: nat, fill: char, width: nat)
    ensures Value(DecimalPrefix(Text(num, 10, fill, width)), 10) == num
            <==> fill == 0 as char || fill == '0' || width <= |Digits(num, 10)| || (num == 0 && !IsDecimal(fill))
  {
    hide Digits, Value, Text;
    var ds := Digits(num, 10);
    var pad := Padding(|ds|, fill, width);
    TextParts(num, 10, fill, width);
    DigitsDecimal(num);
    var t := Text(num, 10, fill, width);
    if fill == 0 as char || fill == '0' || width <= |ds| {
      AllDecimal(t);
      TextDenotes(num, 10, fill, width);
    } else if IsDecimal(fill) {
      AllDecimal(t);
      DigitsDenote(num, 10);
      DigitsRaise(pad, Reversed(ds));
    } else {
      assert t[0] == fill;
      NothingRead(t);
    }
  }

  lemma TextParts(num: nat, base: nat, fill: char, width: nat)
    requires 2 <= base <= 255
    ensures var ds := Digits(num, base);
            var pad := Padding(|ds|, fill, width);
            Text(num, base, fill, width) == pad + Reversed(ds) && |Reversed(ds)| == |ds|
  {
    var ds := Digits(num, base);
    var pad := Padding(|ds|, fill, width);
    ReversedConcat(ds, pad);
    assert Reversed(pad) == pad;
  }

  lemma NothingRead(t: string)
    requires t != "" && !IsDecimal(t[0])
    ensures Value(DecimalPrefix(t), 10) == 0
  {
  }

  // ----- length

  lemma TextLength(num: nat, base: nat, fill: char, width: nat)
    requires 2 <= base <= 255
    ensures var n := |Digits(num, base)|;
            |Text(num, base, fill, width)| == if fill == 0 as char || width <= n then n else width
  {
  }

  function Pow10(k: nat): nat {
    if k == 0 then 1 else 10 * Pow10(k - 1)
  }

  lemma Pow10Five(k: nat)
    ensures Pow10(k + 5) == 100_000 * Pow10(k)
  {
    assert Pow10(k + 5) == 10 * Pow10(k + 4);
    assert Pow10(k + 4) == 10 * Pow10(k + 3);
    assert Pow10(k + 3) == 10 * Pow10(k + 2);
    assert Pow10(k + 2) == 10 * Pow10(k + 1);
  }

  lemma QuotientTenth(num: nat, base: nat)
    requires base >= 10
    ensures 10 * (num / base) <= num
  {
    DivMod(num, base);
    MulAtLeast(num / base, base);
  }

  lemma MulAtLeast(q: nat, base: nat)
    requires base >= 10
    ensures q * base >= q * 10
  {
  }

  lemma DigitsLength(num: nat, base: nat)
    requires 2 <= base <= 255
    ensures |Digits(num, base)| == 1 + if num / base == 0 then 0 else |Digits(num / base, base)|
  {
  }

  lemma {:induction false} DigitCount(num: nat, base: nat, k: nat)
    requires 10 <= base <= 255 && k > 0 && num < Pow10(k)
    ensures |Digits(num, base)| <= k
    decreases k
  {
    hide Digits;
    DigitsLength(num, base);
    QuotientTenth(num, base);
    var q := num / base;
    if q == 0 {
    } else {
      assert Pow10(k) == 10 * Pow10(k - 1) && Pow10(0) == 1;
      DigitCount(num / base, base, k - 1);
    }
  }

  /** Any 64-bit number in base 10 or more, up to 31 columns wide, fits the 32-byte buffer of the
    formatter with its terminator. */
  lemma FitsBuffer(num: nat, base: nat, fill: char, width: nat)
    requires 10 <= base <= 255 && num < 0x1_0000_0000_0000_0000 && width <= 31
    ensures |Text(num, base, fill, width)| + 1 <= 32
  {
    Pow10Five(0);
    Pow10Five(5);
    Pow10Five(10);
    Pow10Five(15);
    DigitCount(num, base, 20);
  }

  // ----- every character

  function Pow(base: nat, k: nat): nat {
    if k == 0 then 1 else base * Pow(base, k - 1)
  }

  lemma {:induction false} PowPositive(base: nat, k: nat)
    requires base > 0
    ensures Pow(base, k) > 0
  {
    if k == 0 {
    } else {
      PowPositive(base, k - 1);
      MulPositive(base, Pow(base, k - 1));
    }
  }

  lemma MulPositive(a: nat, b: nat)
    requires a > 0 && b > 0
    ensures a * b > 0
  {
  }

  /** `q1` and `q2` are the quotients by `a` and then by `b`, `r1` and `r2` what is left. */
  lemma TwoQuotients(x: nat, a: nat, b: nat, q1: nat, r1: nat, q2: nat, r2: nat)
    requires x == a * q1 + r1 && q1 == b * q2 + r2 && r1 < a && r2 < b
    ensures x == a * b * q2 + (a * r2 + r1) && a * r2 + r1 < a * b
  {
    assert a * (b * q2 + r2) == a * b * q2 + a * r2;
    MulOrder(a, r2 + 1, b);
    assert a * (r2 + 1) == a * r2 + a;
  }

  lemma DivDiv(x: nat, a: nat, b: nat)
    requires a > 0 && b > 0
    ensures a * b > 0 && x / a / b == x / (a * b)
  {
    MulPositive(a, b);
    var q1, r1 := x / a, x % a;
    var q2, r2 := q1 / b, q1 % b;
    TwoQuotients(x, a, b, q1, r1, q2, r2);
    QuotientUnique(x, a * b, q2, a * r2 + r1);
  }

  lemma QuotientUnique(x: nat, m: nat, q: nat, r: nat)
    requires m > 0 && x == m * q + r && r < m
    ensures x / m == q
  {
    var q', r' := x / m, x % m;
    assert m * (q - q') == r' - r;
    MulOrder(m, 1, q - q');
    MulOrder(m, q - q', -1);
  }

  lemma MulOrder(m: nat, x: int, y: int)
    ensures x <= y ==> m * x <= m * y
  {
  }

  /** Digit `k` from the right stands for its place in the number: '0' to '9', then 'a' on. */
  lemma {:induction false} DigitAt(num: nat, base: nat, k: nat)
    requires 2 <= base <= 255 && k < |Digits(num, base)|
    ensures Pow(base, k) > 0
    ensures var d, c := num / Pow(base, k) % base, Digits(num, base)[k];
            && (d < 10 ==> c == '0' + d as char)
            && (10 <= d < 36 ==> c == 'a' + (d - 10) as char)
            && (36 <= d ==> c == ((d - 10 + 97) % 256) as char)
    decreases num
  {
    hide Digits;
    PowPositive(base, k);
    DigitFacts(num, base);
    DigitsUnfold(num, base);
    if k == 0 {
      assert num / 1 == num;
    } else {
      DigitAt(num / base, base, k - 1);
      DivDiv(num, base, Pow(base, k - 1));
    }
  }

  /** There are as many digits as the number needs, and at least one. */
  lemma {:induction false} DigitsEnough(num: nat, base: nat)
    requires 2 <= base <= 255
    ensures var n := |Digits(num, base)|;
            n > 0 && num < Pow(base, n) && (n > 1 ==> Pow(base, n - 1) <= num)
    decreases num
  {
    hide Digits;
    DigitFacts(num, base);
    DigitsUnfold(num, base);
    DivMod(num, base);
    var n := |Digits(num, base)|;
    if num / base == 0 {
      assert Pow(base, 1) == base * Pow(base, 0);
    } else {
      DigitsEnough(num / base, base);
      OneMoreDigit(num, base, num / base, num % base, Pow(base, n - 1), Pow(base, n - 2));
    }
  }

  lemma OneMoreDigit(num: nat, base: nat, q: nat, r: nat, hi: nat, lo: nat)
    requires num == q * base + r && r < base && q < hi && (lo <= q || (lo == 1 && q > 0))
    ensures num < base * hi && base * lo <= num
  {
    MulOrder(base, q + 1, hi);
    MulOrder(base, lo, q);
    assert base * (q + 1) == q * base + base && base * q == q * base;
  }

  /** The text is the fill, as often as the width asks for, and then the digits. */
  lemma TextLayout(num: nat, base: nat, fill: char, width: nat)
    requires 2 <= base <= 255
    ensures var n, t := |Digits(num, base)|, Text(num, base, fill, width);
            && |t| >= n
            && (forall k :: 0 <= k < |t| - n ==> t[k] == fill)
            && (forall k :: 0 <= k < n ==> t[|t| - 1 - k] == Digits(num, base)[k])
  {
    hide Digits;
    TextParts(num, base, fill, width);
  }

  // ----- signed numbers

  /** What `parse_s` leaves in the buffer: a sign takes one column of the width. */
  function SignedText(num: int, base: nat, fill: char, width: nat): string
    requires 2 <= base <= 255
  {
    if num < 0 then "-" + Text(-num, base, fill, if width == 0 then 0 else width - 1) else Text(num, base, fill, width)
  }

  /** A negative number begins with its sign, which takes a column of the width. */
  lemma SignedLayout(num: int, base: nat, fill: char, width: nat)
    requires 2 <= base <= 255
    ensures var n, t := |Digits(if num < 0 then -num else num, base)| + if num < 0 then 1 else 0,
                        SignedText(num, base, fill, width);
            && |t| == (if fill == 0 as char || width <= n then n else width)
            && (num < 0 ==> t[0] == '-' && t[1..] == Text(-num, base, fill, if width == 0 then 0 else width - 1))
            && (num >= 0 ==> t == Text(num, base, fill, width))
  {
    hide Digits, Text;
    TextLength(if num < 0 then -num else num, base, fill, if num < 0 && width > 0 then width - 1 else width);
  }

  function SignedValue(s: string, base: nat): int {
    var magnitude: int := if s != "" && s[0] == '-' then Value(s[1..], base) else Value(s, base);
    if s != "" && s[0] == '-' then -magnitude else magnitude
  }

  lemma {:induction false} NoSign(num: nat, base: nat)
    requires 2 <= base <= 36
    ensures '-' !in Digits(num, base)
    decreases num
  {
    hide Digits, DigitChar;
    DigitFacts(num, base);
    DigitsUnfold(num, base);
    DigitBack(num % base);
    if num / base == 0 {
    } else {
      NoSign(num / base, base);
    }
  }

  /** Signed text denotes its number, in every base, unless padded with something but zeros. */
  lemma SignedTextDenotes(num: int, base: nat, fill: char, width: nat)
    requires 2 <= base <= 36 && (fill == 0 as char || fill == '0')
    ensures SignedValue(SignedText(num, base, fill, width), base) == num
  {
    hide Digits, Text, Value;
    var t := SignedText(num, base, fill, width);
    if num < 0 {
      var w := if width == 0 then 0 else width - 1;
      assert t[1..] == Text(-num, base, fill, w);
      TextDenotes(-num, base, fill, w);
    } else {
      TextStart(num, base, fill, width);
      TextDenotes(num, base, fill, width);
    }
  }

  lemma TextStart(num: nat, base: nat, fill: char, width: nat)
    requires 2 <= base <= 36 && fill != '-'
    ensures Text(num, base, fill, width) != "" && Text(num, base, fill, width)[0] != '-'
  {
    hide Digits;
    NoSign(num, base);
    var s := Digits(num, base) + Padding(|Digits(num, base)|, fill, width);
    assert Text(num, base, fill, width)[0] == s[|s| - 1];
  }
}
