/** Numerals: what `print_num_10` and `print_num_16` (src/libk/vfprintf.c) write, and how to read it back. */
module Digits {
  import opened Words

  /** The digit characters, '0' to '9' and 'a' to 'f'. */
  function Digit(d: nat): (c: char)
    requires d < 16
    ensures DigitValue(c) == d && IsDigit(c)
  {
    "0123456789abcdef"[d]
  }

  predicate IsDigit(c: char) {
    '0' <= c <= '9' || 'a' <= c <= 'f'
  }

  function DigitValue(c: char): nat {
    if '0' <= c <= '9' then c as int - '0' as int else if 'a' <= c <= 'f' then c as int - 'a' as int + 10 else 0
  }

  /** The numeral of v, most significant digit first. */
  function Numeral(v: nat, base: nat): (s: string)
    requires 2 <= base <= 16
    ensures |s| > 0 && forall i :: 0 <= i < |s| ==> IsDigit(s[i])
  {
    if v < base then [Digit(v)] else Numeral(v / base, base) + [Digit(v % base)]
  }

  /** Reading digits from left to right. */
  function Value(s: string, base: nat): nat {
    if s == "" then 0 else Value(s[..|s| - 1], base) * base + DigitValue(s[|s| - 1])
  }

  function Power(base: nat, n: nat): nat {
    if n == 0 then 1 else base * Power(base, n - 1)
  }

  lemma ValueSnoc(s: string, c: char, base: nat)
    ensures Value(s + [c], base) == Value(s, base) * base + DigitValue(c)
  {
  }

  lemma {:induction false} NumeralReadsBack(v: nat, base: nat)
    requires 2 <= base <= 16
    ensures Value(Numeral(v, base), base) == v
  {
    hide Value, Numeral, Quot, Rem, Digit, DigitValue;
    NumeralUnfold(v, base);
    if v >= base {
      NumeralReadsBack(Quot(v, base), base);
      ValueSnoc(Numeral(Quot(v, base), base), Digit(Rem(v, base)), base);
    } else {
      ValueOfDigit(v, base);
    }
  }

  lemma NumeralUnfold(v: nat, base: nat)
    requires 2 <= base <= 16
    ensures v >= base ==> Numeral(v, base) == Numeral(Quot(v, base), base) + [Digit(Rem(v, base))]
    ensures v >= base ==> Quot(v, base) * base + Rem(v, base) == v
    ensures v < base ==> Numeral(v, base) == [Digit(v)]
  {
    Quotient(v, base);
  }

  lemma ValueOfDigit(d: nat, base: nat)
    requires d < 16
    ensures Value([Digit(d)], base) == d
  {
  }

  /** The characters of the digits: '0' to '9' for 0 to 9 and 'a' to 'f' for 10 to 15. */
  lemma DigitIs(d: nat)
    requires d < 16
    ensures Digit(d) as int == if d < 10 then 48 + d else 87 + d
  {
    assert forall k :: 0 <= k < 16 ==> "0123456789abcdef"[k] as int == if k < 10 then 48 + k else 87 + k;
  }

  /** The character with k characters behind it is the digit of base^k. */
  lemma {:induction false} NumeralDigit(v: nat, base: nat, k: nat)
    requires 2 <= base <= 16 && k < |Numeral(v, base)|
    ensures Power(base, k) > 0
    ensures Numeral(v, base)[|Numeral(v, base)| - 1 - k] == Digit(v / Power(base, k) % base)
  {
    hide Digit, Numeral;
    PowerPositive(base, k);
    NumeralUnfold(v, base);
    QuotIs(v, base);
    if k == 0 {
      assert Power(base, 0) == 1;
    } else {
      NumeralDigit(v / base, base, k - 1);
      DivideTwice(v, base, Power(base, k - 1));
    }
  }

  lemma {:induction false} PowerPositive(base: nat, n: nat)
    requires base >= 2
    ensures Power(base, n) > 0
  {
    if n > 0 { PowerAtLeast(base, n); }
  }

  lemma QuotIs(v: nat, base: nat)
    requires base > 1
    ensures Quot(v, base) == v / base && Rem(v, base) == v % base
    ensures v < base ==> v % base == v
  {
    if v < base { QuotientIs(v, base, 0, v); }
  }

  /** No leading zero, except for zero itself. */
  lemma {:induction false} NumeralIsMinimal(v: nat, base: nat)
    requires 2 <= base <= 16
    ensures Numeral(v, base)[0] == '0' <==> v == 0
  {
    NumeralUnfold(v, base);
    QuotZero(v, base);
    hide Numeral, Quot, Rem;
    if v >= base {
      NumeralIsMinimal(Quot(v, base), base);
      assert Numeral(v, base)[0] == Numeral(Quot(v, base), base)[0];
    }
  }

  /** The length of a numeral, both ways. */
  lemma {:induction false} NumeralLength(v: nat, base: nat, n: nat)
    requires 2 <= base <= 16 && n > 0
    ensures |Numeral(v, base)| <= n <==> v < Power(base, n)
  {
    hide Numeral, Power;
    NumeralStep(v, base);
    PowerStep(base, n);
    PowerAtLeast(base, n);
    if v >= base && n > 1 {
      NumeralLength(v / base, base, n - 1);
      DivideBound(v, base, Power(base, n - 1));
    }
  }

  lemma NumeralStep(v: nat, base: nat)
    requires 2 <= base <= 16
    ensures |Numeral(v, base)| == if v < base then 1 else |Numeral(v / base, base)| + 1
  {
  }

  lemma PowerStep(base: nat, n: nat)
    requires n > 0
    ensures Power(base, n) == base * Power(base, n - 1) && (n == 1 ==> Power(base, n) == base)
  {
  }

  lemma {:induction false} PowerAtLeast(base: nat, n: nat)
    requires base >= 2 && n > 0
    ensures Power(base, n) >= base
  {
    hide Power;
    PowerStep(base, n);
    if n > 1 {
      PowerAtLeast(base, n - 1);
      Multiples(1, Power(base, n - 1), base);
    }
  }

  lemma DivideBound(v: nat, base: nat, p: nat)
    requires base > 0
    ensures v / base < p <==> v < base * p
  {
    Quotient(v, base);
    Multiples(v / base, p, base);
    Multiples(p, v / base + 1, base);
    assert (v / base + 1) * base == v / base * base + base;
  }

  function Quot(v: nat, base: nat): (q: nat)
    requires base > 1
    ensures q <= v && (v > 0 ==> q < v)
  {
    QuotBelow(v, base);
    v / base
  }

  lemma QuotBelow(v: nat, base: nat)
    requires base > 1
    ensures 0 <= v / base <= v && (v > 0 ==> v / base < v)
  {
    DivideBound(v, base, v);
    Multiples(1, base, v);
    if v == 0 { assert v / base == 0; }
  }

  function Rem(v: nat, base: nat): (r: nat)
    requires base > 1
    ensures r < base
  {
    v % base
  }

  /** The last digit of a numeral, and what is before it. */
  lemma NumeralEnds(v: nat, base: nat)
    requires 2 <= base <= 16
    ensures var s := Numeral(v, base);
      && s[|s| - 1] == Digit(Rem(v, base))
      && (|s| > 1 ==> s[..|s| - 1] == Numeral(Quot(v, base), base))
      && (|s| == 1 ==> Quot(v, base) == 0)
    ensures v > 0 && Quot(v, base) > 0 ==> |Numeral(v, base)| == 1 + |Numeral(Quot(v, base), base)|
    ensures v > 0 && Quot(v, base) == 0 ==> |Numeral(v, base)| == 1
  {
    hide Digit;
    QuotZero(v, base);
    if v >= base {
      NumeralSnoc(Numeral(Quot(v, base), base), Digit(Rem(v, base)));
    }
  }

  lemma QuotZero(v: nat, base: nat)
    requires base > 1
    ensures v < base ==> Quot(v, base) == 0 && Rem(v, base) == v
    ensures v >= base ==> Quot(v, base) > 0
  {
  }

  lemma NumeralSnoc(s: string, c: char)
    ensures (s + [c])[|s + [c]| - 1] == c && (s + [c])[..|s + [c]| - 1] == s
  {
  }

  /** A 64-bit value has at most 20 decimal and at most 16 hexadecimal digits: the 32-byte buffer is large enough. */
  lemma NumeralFits(v: nat)
    requires v < 0x1_0000_0000_0000_0000
    ensures |Numeral(v, 10)| <= 20 && |Numeral(v, 16)| <= 16
  {
    Powers();
    NumeralLength(v, 10, 20);
    NumeralLength(v, 16, 16);
  }

  lemma Powers()
    ensures Power(10, 20) == 100_000_000_000_000_000_000 && Power(16, 16) == 0x1_0000_0000_0000_0000
  {
    assert Power(10, 5) == 100_000;
    assert Power(10, 10) == 10_000_000_000;
    assert Power(10, 15) == 1_000_000_000_000_000;
    assert Power(16, 4) == 0x1_0000;
    assert Power(16, 8) == 0x1_0000_0000;
    assert Power(16, 12) == 0x1_0000_0000_0000;
  }

  // ------------------------------------------------------------------ fields

  function Repeat(c: char, n: nat): (s: string)
    ensures |s| == n && forall i :: 0 <= i < n ==> s[i] == c
  {
    if n == 0 then "" else Repeat(c, n - 1) + [c]
  }

  /** Text padded on the left to at least `width` characters. */
  function Padded(width: int, text: string, pad: char): (s: string)
    ensures |s| == if width > |text| then width else |text|
  {
    Repeat(pad, if width > |text| then width - |text| else 0) + text
  }

  /** Reads a number, skipping blanks before it. */
  function ReadNumber(s: string, base: nat): nat {
    if s != "" && s[0] == ' ' then ReadNumber(s[1..], base) else Value(s, base)
  }

  lemma {:induction false} ReadPadded(n: nat, s: string, base: nat)
    requires s != "" && s[0] != ' '
    ensures ReadNumber(Repeat(' ', n) + s, base) == Value(s, base)
  {
    if n == 0 {
      assert Repeat(' ', 0) + s == s;
    } else {
      assert (Repeat(' ', n) + s)[1..] == Repeat(' ', n - 1) + s;
      ReadPadded(n - 1, s, base);
    }
  }

  lemma {:induction false} LeadingZeros(n: nat, s: string, base: nat)
    ensures Value(Repeat('0', n) + s, base) == Value(s, base)
    decreases |s|, n
  {
    var all := Repeat('0', n) + s;
    if s != "" {
      assert all[..|all| - 1] == Repeat('0', n) + s[..|s| - 1];
      LeadingZeros(n, s[..|s| - 1], base);
    } else if n > 0 {
      assert all[..|all| - 1] == Repeat('0', n - 1) + s;
      LeadingZeros(n - 1, s, base);
    } else {
      assert all == s;
    }
  }

  /** A number printed in a field of any width, padded with blanks or zeros, reads back as itself. */
  lemma FieldReadsBack(width: int, v: nat, base: nat, pad: char)
    requires 2 <= base <= 16 && pad in {' ', '0'}
    ensures ReadNumber(Padded(width, Numeral(v, base), pad), base) == v
  {
    var s := Numeral(v, base);
    var n := if width > |s| then width - |s| else 0;
    NumeralReadsBack(v, base);
    if pad == ' ' {
      ReadPadded(n, s, base);
    } else {
      LeadingZeros(n, s, base);
      assert (Repeat('0', n) + s)[0] != ' ';
    }
  }
}
