// How numbers are printed (kernel/kstdlib/stdio.c).
module Numbers {
  const DIGITS: string := "0123456789ABCDEF"
  const NUL: char := '\0'

  // The debug console: the characters written so far.
  class Console {
    var text: string

    constructor ()
      ensures text == ""
    {
      text := "";
    }

    method WriteDebugChar(c: char)
      modifies this
      ensures text == old(text) + [c]
    {
      text := text + [c];
    }
  }

  // ---- Hexadecimal ----

  function Pow16(i: nat): (p: nat)
    ensures p > 0
  {
    if i == 0 then 1 else 16 * Pow16(i - 1)
  }

  // The fewest digits that spell n, and none for 0.
  function Significant(n: nat): (r: nat) {
    if n == 0 then 0 else 1 + Significant(n / 16)
  }

  function ValueDigits(n: nat): (r: nat) {
    if n == 0 then 1 else Significant(n)
  }

  function Larger(a: nat, b: nat): (r: nat) {
    if a > b then a else b
  }

  // number >> (i * 4)
  function Nibbles(n: nat, i: nat): (r: nat) {
    if i == 0 then n else Nibbles(n / 16, i - 1)
  }

  // The character at digit position i, counted from the right.
  function HexChar(n: nat, i: nat): (r: char) {
    if i >= ValueDigits(n) then '0' else DIGITS[Nibbles(n, i) % 16]
  }

  // Positions i - 1 down to 0.
  function HexFrom(n: nat, i: nat): (s: string)
    ensures |s| == i
  {
    if i == 0 then "" else [HexChar(n, i - 1)] + HexFrom(n, i - 1)
  }

  function HexText(n: nat, width: nat): (r: string) {
    HexFrom(n, Larger(width, ValueDigits(n)))
  }

  // printf_internal_HexPadded and printf_internal_HexULongPadded, which differ in the
  // number's width only.
  method HexPadded(console: Console, number: nat, zeroPadWidth: nat) returns (count: nat)
    modifies console
    ensures console.text == old(console.text) + HexText(number, zeroPadWidth)
    ensures count == |HexText(number, zeroPadWidth)|
  {
    hide Nibbles, HexFrom;
    var valueDigits := 0;
    var i := number;
    while i > 0
      invariant Significant(number) == valueDigits + Significant(i)
      invariant console.text == old(console.text)
    {
      i := i / 16;
      valueDigits := valueDigits + 1;
    }
    if valueDigits == 0 {
      valueDigits := 1;
    }
    var digitsToPrint := valueDigits;
    if zeroPadWidth > digitsToPrint {
      digitsToPrint := zeroPadWidth;
    }
    count := digitsToPrint;
    assert valueDigits == ValueDigits(number);
    var k := digitsToPrint;
    while k > 0
      invariant count == |HexText(number, zeroPadWidth)|
      invariant console.text + HexFrom(number, k) == old(console.text) + HexText(number, zeroPadWidth)
    {
      var before := console.text;
      if k - 1 >= valueDigits {
        console.WriteDebugChar('0');
      } else {
        console.WriteDebugChar(DIGITS[Nibbles(number, k - 1) % 16]);
      }
      HexFromCons(before, number, k);
      k := k - 1;
    }
    assert HexFrom(number, 0) == "" by { NoDigits(number); }
    assert console.text + "" == console.text;
  }

  lemma HexFromCons(before: string, n: nat, i: nat)
    requires i > 0
    ensures before + HexFrom(n, i) == (before + [HexChar(n, i - 1)]) + HexFrom(n, i - 1)
  {
    hide HexChar;
  }

  lemma NoDigits(n: nat)
    ensures HexFrom(n, 0) == ""
  {
  }

  // Reading back: the value of a digit, and of a spelling in base 16 or 10.
  function DigitValue(c: char): (r: nat) {
    if '0' <= c <= '9' then c as nat - '0' as nat
    else if 'A' <= c <= 'F' then c as nat - 'A' as nat + 10
    else 0
  }

  function ReadIn(s: string, base: nat): (r: nat) {
    if s == "" then 0 else ReadIn(s[..|s| - 1], base) * base + DigitValue(s[|s| - 1])
  }

  lemma DigitsAreDigits(d: nat)
    requires d < 16
    ensures DigitValue(DIGITS[d]) == d
    ensures DIGITS[d] == '0' <==> d == 0
  {
  }

  lemma {:induction false} SignificantBound(n: nat)
    ensures n < Pow16(Significant(n))
    ensures n > 0 ==> Significant(n) >= 1 && Pow16(Significant(n) - 1) <= n
  {
    if n > 0 {
      SignificantBound(n / 16);
      assert n == n / 16 * 16 + n % 16;
    }
  }

  lemma {:induction false} NibblesEnd(n: nat, i: nat)
    ensures i >= Significant(n) ==> Nibbles(n, i) == 0
    ensures n > 0 && i + 1 == Significant(n) ==> 1 <= Nibbles(n, i) <= 15
    decreases i
  {
    assert Significant(n / 16) == 0 <==> n / 16 == 0;
    if i > 0 { NibblesEnd(n / 16, i - 1); }
  }

  // The digits past the value's own are zeros anyway.
  lemma HexCharIsNibble(n: nat, i: nat)
    ensures HexChar(n, i) == DIGITS[Nibbles(n, i) % 16]
  {
    hide Nibbles;
    NibblesEnd(n, i);
  }

  lemma {:induction false} HexFromSnoc(n: nat, i: nat)
    requires i > 0
    ensures HexFrom(n, i) == HexFrom(n / 16, i - 1) + [DIGITS[n % 16]]
    decreases i
  {
    HexCharIsNibble(n, i - 1);
    if i > 1 {
      HexCharIsNibble(n / 16, i - 2);
      HexFromSnoc(n, i - 1);
    }
  }

  lemma {:induction false} HexFromValue(n: nat, i: nat)
    requires i >= Significant(n)
    ensures ReadIn(HexFrom(n, i), 16) == n
    decreases i
  {
    if i > 0 {
      HexFromSnoc(n, i);
      HexFromValue(n / 16, i - 1);
      var head := HexFrom(n / 16, i - 1);
      assert (head + [DIGITS[n % 16]])[..|head|] == head;
      DigitsAreDigits(n % 16);
    }
  }

  lemma {:induction false} HexFromDigits(n: nat, i: nat)
    ensures forall k | 0 <= k < i :: HexFrom(n, i)[k] in "0123456789ABCDEF"
    decreases i
  {
    if i > 0 {
      HexCharIsNibble(n, i - 1);
      HexFromDigits(n, i - 1);
      assert HexFrom(n, i)[0] in DIGITS;
    }
  }

  // The hex round trip: for every number and width, the characters are hex digits that read in base
  // 16 are the number, there are as many as the larger of the width and the fewest digits possible,
  // and without a width there is no leading zero, save for 0 itself.
  lemma HexRoundTrip(n: nat, width: nat)
    ensures ReadIn(HexText(n, width), 16) == n
    ensures forall k | 0 <= k < |HexText(n, width)| :: HexText(n, width)[k] in "0123456789ABCDEF"
    ensures |HexText(n, width)| == if width >= ValueDigits(n) then width else ValueDigits(n)
    ensures n < Pow16(ValueDigits(n)) && (n > 0 ==> Pow16(ValueDigits(n) - 1) <= n) && ValueDigits(0) == 1
    ensures HexText(n, 0)[0] == '0' <==> n == 0
  {
    hide ReadIn, HexFrom;
    HexFromValue(n, Larger(width, ValueDigits(n)));
    HexFromDigits(n, Larger(width, ValueDigits(n)));
    SignificantBound(n);
    HexLeads(n);
  }

  lemma HexLeads(n: nat)
    ensures HexText(n, 0)[0] == '0' <==> n == 0
  {
    hide Nibbles;
    HexCharIsNibble(n, ValueDigits(n) - 1);
    NibblesEnd(n, ValueDigits(n) - 1);
    DigitsAreDigits(Nibbles(n, ValueDigits(n) - 1) % 16);
  }

  // ---- Decimal ----

  // The least significant digit comes first.
  function DecimalText(n: nat): (s: string)
    ensures |s| >= 1
  {
    if n < 10 then [DIGITS[n]] else [DIGITS[n % 10]] + DecimalText(n / 10)
  }

  // printf_internal_ULong
  method ULong(console: Console, value: nat) returns (count: nat)
    modifies console
    ensures console.text == old(console.text) + DecimalText(value) && count == |DecimalText(value)|
  {
    var number, more := value, true;
    count := 0;
    while more
      invariant number == 0 || more
      invariant more ==> console.text + DecimalText(number) == old(console.text) + DecimalText(value)
      invariant more ==> count + |DecimalText(number)| == |DecimalText(value)|
      invariant !more ==> console.text == old(console.text) + DecimalText(value) && count == |DecimalText(value)|
      decreases number, more
    {
      var before := console.text;
      console.WriteDebugChar(DIGITS[number % 10]);
      if number >= 10 {
        assert before + DecimalText(number) == (before + [DIGITS[number % 10]]) + DecimalText(number / 10);
      }
      number := number / 10;
      count := count + 1;
      more := number != 0;
    }
  }

  // A negative number is zeroed after its sign.
  function SignedText(i: int): (r: string) {
    if i < 0 then "-" + DecimalText(0) else DecimalText(i)
  }

  // printf_internal_Number: the sign is not in the count.
  method Number(console: Console, value: int) returns (count: nat)
    modifies console
    ensures console.text == old(console.text) + SignedText(value)
    ensures count + (if value < 0 then 1 else 0) == |SignedText(value)|
  {
    var number := value;
    if number < 0 {
      console.WriteDebugChar('-');
      number := number - number;
    }
    count := ULong(console, number);
  }

  // Reading the least significant digit first.
  function ReadLowFirst(s: string): (r: nat) {
    if s == "" then 0 else DigitValue(s[0]) + 10 * ReadLowFirst(s[1..])
  }

  // Read from the least significant end, the digits printed are the number.
  lemma {:induction false} DecimalBackwards(n: nat)
    ensures ReadLowFirst(DecimalText(n)) == n
  {
    DigitsAreDigits(n % 10);
    if n < 10 {
      assert DecimalText(n)[1..] == "";
    } else {
      DecimalBackwards(n / 10);
      assert DecimalText(n)[1..] == DecimalText(n / 10);
    }
  }

  function Pow10(i: nat): (p: nat)
    ensures p > 0
  {
    if i == 0 then 1 else 10 * Pow10(i - 1)
  }

  // There are no more digits than the number needs.
  lemma {:induction false} DecimalLength(n: nat)
    ensures n < Pow10(|DecimalText(n)|) && (n > 0 ==> Pow10(|DecimalText(n)| - 1) <= n)
    ensures n == 0 ==> |DecimalText(n)| == 1
  {
    if n >= 10 {
      DecimalLength(n / 10);
      assert n == n / 10 * 10 + n % 10;
    }
  }

  // What %d prints for a number that is not negative: its digits, least significant first, and no
  // more of them than it needs.
  lemma SignedDigits(i: nat)
    ensures ReadLowFirst(SignedText(i)) == i && DecimalDigits(SignedText(i))
    ensures i < Pow10(|SignedText(i)|) && (i > 0 ==> Pow10(|SignedText(i)| - 1) <= i)
    ensures i == 0 ==> |SignedText(i)| == 1
  {
    hide DecimalText, ReadLowFirst, DecimalDigits, Pow10;
    DecimalBackwards(i);
    DecimalHasDigits(i);
    DecimalLength(i);
  }

  function Reversed(s: string): (r: string)
    ensures |r| == |s|
  {
    if s == "" then "" else Reversed(s[1..]) + [s[0]]
  }

  lemma {:induction false} ReadReversed(s: string)
    ensures ReadIn(Reversed(s), 10) == ReadLowFirst(s)
  {
    if s != "" {
      ReadReversed(s[1..]);
      var r := Reversed(s);
      assert r[..|r| - 1] == Reversed(s[1..]) && r[|r| - 1] == s[0];
    }
  }

  predicate DecimalDigits(s: string) {
    forall k | 0 <= k < |s| :: '0' <= s[k] <= '9'
  }

  lemma SameDigit(c: char, d: char)
    requires '0' <= c <= '9' && '0' <= d <= '9'
    ensures DigitValue(c) < 10 && DigitValue(d) < 10 && (DigitValue(c) == DigitValue(d) ==> c == d)
  {
  }

  lemma ReadSnoc(s: string)
    requires s != ""
    ensures ReadIn(s, 10) == ReadIn(s[..|s| - 1], 10) * 10 + DigitValue(s[|s| - 1])
  {
  }

  // Equally long digit strings with the same value are the same.
  lemma {:induction false} ReadInjective(s: string, t: string)
    requires |s| == |t| && DecimalDigits(s) && DecimalDigits(t) && ReadIn(s, 10) == ReadIn(t, 10)
    ensures s == t
    decreases |s|
  {
    hide DigitValue, ReadIn;
    if s != "" {
      var s', t' := s[..|s| - 1], t[..|t| - 1];
      var c, d := s[|s| - 1], t[|t| - 1];
      SameDigit(c, d);
      ReadSnoc(s);
      ReadSnoc(t);
      LastDigit(ReadIn(s', 10), DigitValue(c), ReadIn(t', 10), DigitValue(d));
      ReadInjective(s', t');
      assert s == s' + [c] && t == t' + [d];
    }
  }

  lemma LastDigit(x: nat, a: nat, y: nat, b: nat)
    requires x * 10 + a == y * 10 + b && a < 10 && b < 10
    ensures x == y && a == b
  {
  }

  lemma {:induction false} DecimalHasDigits(n: nat)
    ensures DecimalDigits(DecimalText(n))
  {
    if n >= 10 { DecimalHasDigits(n / 10); }
  }

  lemma {:induction false} ReversedDigits(s: string)
    requires DecimalDigits(s)
    ensures DecimalDigits(Reversed(s))
  {
    if s != "" { ReversedDigits(s[1..]); }
  }

  // Read the usual way, what is printed is the number exactly when its digits are the same from
  // both ends.
  lemma DecimalReadsIff(n: nat)
    ensures ReadIn(DecimalText(n), 10) == n <==> DecimalText(n) == Reversed(DecimalText(n))
  {
    hide ReadIn, ReadLowFirst, DecimalDigits, DecimalText, Reversed;
    var s := DecimalText(n);
    DecimalBackwards(n);
    ReadReversed(s);
    DecimalHasDigits(n);
    ReversedDigits(s);
    if ReadIn(s, 10) == n { ReadInjective(s, Reversed(s)); }
  }

  // 12 prints as 21, and every negative number as -0.
  lemma DecimalSamples(i: int)
    ensures DecimalText(12) == "21"
    ensures i < 0 ==> SignedText(i) == "-0"
  {
    assert DecimalText(1) == "1";
  }
}
