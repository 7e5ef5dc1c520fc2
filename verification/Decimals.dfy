/** Decimal text: what the bridge prints and what the C library reads back. */
module Decimals {
  import opened Bits

  predicate IsDigit(c: char) {
    '0' <= c <= '9'
  }

  function DigitChar(d: nat): (c: char)
    requires d < 10
    ensures IsDigit(c) && DigitValue(c) == d
  {
    (d + '0' as int) as char
  }

  function DigitValue(c: char): nat
    requires IsDigit(c)
  {
    c as int - '0' as int
  }

  ghost predicate AllDigits(s: string) {
    forall i :: 0 <= i < |s| ==> IsDigit(s[i])
  }

  function Pow10(k: nat): (r: nat)
    ensures r > 0
  {
    if k == 0 then 1 else 10 * Pow10(k - 1)
  }

  // ----- Printing, as Python's str and .2f -----

  function PrintNat(n: nat): (s: string)
    ensures s != [] && AllDigits(s)
  {
    if n < 10 then [DigitChar(n)] else PrintNat(n / 10) + [DigitChar(n % 10)]
  }

  function PrintInt(n: int): (s: string)
    ensures s != []
  {
    if n < 0 then "-" + PrintNat(-n) else PrintNat(n)
  }

  /** Nearest integer, ties to even. */
  function RoundHalfEven(x: real): int {
    var f := x.Floor;
    var d := x - f as real;
    if d < 0.5 || (d == 0.5 && f % 2 == 0) then f else f + 1
  }

  /** A price in cents with two decimals. */
  function PrintCents(cents: nat): string {
    PrintNat(cents / 100) + "." + [DigitChar(cents / 10 % 10), DigitChar(cents % 10)]
  }

  /** `{price:.2f}`; a negative price keeps its sign even when it rounds to zero. */
  function PrintPrice(price: real): string {
    if price < 0.0 then "-" + PrintCents(RoundedMagnitude(price)) else PrintCents(RoundedMagnitude(price))
  }

  function RoundedMagnitude(price: real): nat {
    RoundHalfEven((if price < 0.0 then -price else price) * 100.0)
  }

  /** The price the text says, in cents. */
  function Cents(price: real): int {
    if price < 0.0 then 0 - RoundedMagnitude(price) else RoundedMagnitude(price)
  }

  /** A price of a whole number of ticks is printed as itself. */
  lemma TickPrice(ticks: int)
    ensures Cents(ticks as real / 100.0) == ticks
  {
    var x := ticks as real / 100.0;
    var a := if x < 0.0 then -x else x;
    assert a * 100.0 == (if ticks < 0 then -ticks else ticks) as real;
  }

  // ----- Reading, as strtol, strtoull and strtod -----

  /** Length of the leading digits. */
  function DigitRun(s: string): (n: nat)
    ensures n <= |s| && AllDigits(s[..n]) && (n < |s| ==> !IsDigit(s[n]))
  {
    if s == [] || !IsDigit(s[0]) then 0 else 1 + DigitRun(s[1..])
  }

  function DigitsValue(s: string): nat
    requires AllDigits(s)
  {
    if s == [] then 0 else 10 * DigitsValue(s[..|s| - 1]) + DigitValue(s[|s| - 1])
  }

  function Negative(s: string): bool {
    s != [] && s[0] == '-'
  }

  /** The text after an optional sign. */
  function Unsigned(s: string): string {
    if s != [] && (s[0] == '-' || s[0] == '+') then s[1..] else s
  }

  function Magnitude(s: string): nat {
    DigitsValue(Unsigned(s)[..DigitRun(Unsigned(s))])
  }

  const LONG_MAX: int := 0x7FFF_FFFF_FFFF_FFFF
  const LONG_MIN: int := -0x8000_0000_0000_0000

  function Clamp(x: int): int {
    if x > LONG_MAX then LONG_MAX else if x < LONG_MIN then LONG_MIN else x
  }

  /** `strtol` with base 10: saturates at the 64-bit bounds. */
  function StrToLong(s: string): int {
    Clamp(if Negative(s) then 0 - Magnitude(s) else Magnitude(s))
  }

  /** `strtoull`: saturates above, wraps a negated value. */
  function StrToUll(s: string): Word {
    if Magnitude(s) >= WORD then WORD - 1 else if Negative(s) then Wrap(0 - Magnitude(s)) else Magnitude(s)
  }

  /** The cast to `int32_t`. */
  function ToInt32(x: int): int {
    (x + 0x8000_0000) % 0x1_0000_0000 - 0x8000_0000
  }

  lemma CastIff(n: int)
    ensures ToInt32(n) == n <==> IsInt32(n)
  {
  }

  /** The digits after a decimal point, as a fraction. */
  function Fraction(tail: string): real {
    var k := DigitRun(tail);
    DigitsValue(tail[..k]) as real / Pow10(k) as real
  }

  /** `strtod` on an unsigned plain decimal. */
  function UnsignedDecimal(body: string): real {
    var n := DigitRun(body);
    DigitsValue(body[..n]) as real + if n < |body| && body[n] == '.' then Fraction(body[n + 1..]) else 0.0
  }

  function StrToD(s: string): real {
    if Negative(s) then -UnsignedDecimal(Unsigned(s)) else UnsignedDecimal(Unsigned(s))
  }

  /** `llround`: nearest integer, ties away from zero. */
  function RoundAway(x: real): int {
    if x >= 0.0 then (x + 0.5).Floor else -((-x + 0.5).Floor)
  }

  /** `parsePriceTicks`: decimals are dollars, plain integers are already ticks. */
  function PriceTicks(s: string): int {
    if '.' in s then ToInt32(RoundAway(StrToD(s) * 100.0)) else ToInt32(StrToLong(s))
  }

  // ----- Reading back what was printed -----

  lemma {:induction false} RunOfDigits(s: string, rest: string)
    requires AllDigits(s) && (rest == [] || !IsDigit(rest[0]))
    ensures DigitRun(s + rest) == |s|
  {
    if s == [] {
      assert s + rest == rest;
    } else {
      assert (s + rest)[1..] == s[1..] + rest;
      RunOfDigits(s[1..], rest);
    }
  }

  lemma {:induction false} PrintedValue(n: nat)
    ensures DigitsValue(PrintNat(n)) == n
  {
    if n >= 10 {
      PrintedValue(n / 10);
      assert PrintNat(n)[..|PrintNat(n)| - 1] == PrintNat(n / 10);
    }
  }

  lemma ReadPrintedInt(n: int)
    ensures Negative(PrintInt(n)) <==> n < 0
    ensures Magnitude(PrintInt(n)) == if n < 0 then -n else n
  {
    var digits := PrintNat(if n < 0 then -n else n);
    assert IsDigit(digits[0]);
    assert Unsigned(PrintInt(n)) == digits;
    RunOfDigits(digits, []);
    assert digits + [] == digits && digits[..|digits|] == digits;
    PrintedValue(if n < 0 then -n else n);
  }

  /** Printing and reading an int32 gives it back, and no other integer survives the two conversions. */
  lemma IntRoundTripIff(n: int)
    ensures ToInt32(StrToLong(PrintInt(n))) == n <==> IsInt32(n)
  {
    ReadPrintedInt(n);
  }

  lemma IdRoundTripIff(id: nat)
    ensures StrToUll(PrintInt(id)) == id <==> id < WORD
  {
    ReadPrintedInt(id);
  }

  lemma TwoDigits(a: nat, b: nat)
    requires a < 10 && b < 10
    ensures Fraction([DigitChar(a), DigitChar(b)]) == (10 * a + b) as real / 100.0
  {
    var s := [DigitChar(a), DigitChar(b)];
    assert s[..|s| - 1] == [DigitChar(a)];
    assert [DigitChar(a)][..0] == [];
    assert DigitsValue([DigitChar(a)]) == a;
    RunOfDigits(s, []);
    assert s + [] == s && s[..2] == s;
    assert Pow10(2) == 10 * Pow10(1) && Pow10(1) == 10 * Pow10(0);
  }

  /** `strtod` on digits, a point, and more digits. */
  lemma ReadPoint(whole: string, tail: string)
    requires whole != [] && AllDigits(whole)
    ensures StrToD(whole + "." + tail) == DigitsValue(whole) as real + Fraction(tail)
  {
    var s := whole + "." + tail;
    assert s == whole + ("." + tail);
    RunOfDigits(whole, "." + tail);
    assert IsDigit(s[0]);
    assert s[..|whole|] == whole && s[|whole|] == '.' && s[|whole| + 1..] == tail;
  }

  lemma LastTwoDigits(cents: nat)
    ensures 10 * (cents / 10 % 10) + cents % 10 == cents % 100
  {
    var tens := cents / 10;
    assert cents == 10 * tens + cents % 10 && tens == 10 * (tens / 10) + tens % 10;
    DivModUnique(cents, 100, tens / 10, 10 * (tens % 10) + cents % 10);
  }

  lemma CentsSplit(cents: nat)
    ensures (cents / 100) as real + (cents % 100) as real / 100.0 == cents as real / 100.0
  {
    var q, r := cents / 100, cents % 100;
    assert cents == q * 100 + r;
    assert cents as real == q as real * 100.0 + r as real;
  }

  lemma ReadPrintedCents(cents: nat)
    ensures StrToD(PrintCents(cents)) == cents as real / 100.0
    ensures '.' in PrintCents(cents) && IsDigit(PrintCents(cents)[0])
  {
    ReadPoint(PrintNat(cents / 100), [DigitChar(cents / 10 % 10), DigitChar(cents % 10)]);
    TwoDigits(cents / 10 % 10, cents % 10);
    LastTwoDigits(cents);
    PrintedValue(cents / 100);
    CentsSplit(cents);
    assert PrintCents(cents)[|PrintNat(cents / 100)|] == '.';
  }

  lemma ReadNegated(text: string)
    requires text != [] && IsDigit(text[0])
    ensures StrToD("-" + text) == -StrToD(text)
    ensures '.' in text ==> '.' in "-" + text
  {
    assert Unsigned("-" + text) == text && Unsigned(text) == text;
    assert ("-" + text)[1..] == text;
  }

  lemma RoundInteger(n: int)
    ensures RoundAway(n as real) == n
    ensures RoundAway(n as real / 100.0 * 100.0) == n
  {
  }

  /** A printed price reads back as its cents, cast to int32. */
  lemma PriceRoundTrip(price: real)
    ensures PriceTicks(PrintPrice(price)) == ToInt32(Cents(price))
  {
    var c := RoundedMagnitude(price);
    ReadPrintedCents(c);
    ReadNegated(PrintCents(c));
    RoundInteger(Cents(price));
    assert StrToD(PrintPrice(price)) == Cents(price) as real / 100.0;
    assert '.' in PrintPrice(price);
  }

  // ----- Rounding and reading, said outright -----

  /** `llround` goes to the nearest integer, and from half-way away from zero. */
  lemma RoundAwayIff(x: real, r: int)
    ensures RoundAway(x) == r <==>
      if x >= 0.0 then r as real - 0.5 <= x < r as real + 0.5 else r as real - 0.5 < x <= r as real + 0.5
  {
  }

  /** Two-decimal printing goes to the nearest cent, and from half-way to the even one. */
  lemma RoundHalfEvenIff(x: real, r: int)
    ensures RoundHalfEven(x) == r <==>
      r as real - 0.5 <= x <= r as real + 0.5 && (x == r as real - 0.5 || x == r as real + 0.5 ==> r % 2 == 0)
  {
  }

  /** The number at the head of a text, behind an optional sign and whatever follows it. */
  lemma ReadHead(sign: string, n: nat, junk: string)
    requires sign == "" || sign == "+" || sign == "-"
    requires junk == [] || !IsDigit(junk[0])
    ensures Magnitude(sign + (PrintNat(n) + junk)) == n
    ensures Negative(sign + (PrintNat(n) + junk)) <==> sign == "-"
  {
    var digits := PrintNat(n);
    var body := digits + junk;
    assert IsDigit(body[0]);
    assert Unsigned(sign + body) == body;
    RunOfDigits(digits, junk);
    assert body[..|digits|] == digits;
    PrintedValue(n);
  }

  /** `strtol` reads an optional sign and the digits behind it, ignores what follows, and saturates at 64 bits;
      `strtoull` saturates above and wraps a negated number. */
  lemma SignedReads(sign: string, n: nat, junk: string, s: string)
    requires sign == "" || sign == "+" || sign == "-"
    requires (junk == [] || !IsDigit(junk[0])) && s == sign + (PrintNat(n) + junk)
    ensures StrToLong(s) ==
      if sign == "-" then (if n > 0x8000_0000_0000_0000 then -0x8000_0000_0000_0000 else 0 - n)
      else (if n > 0x7FFF_FFFF_FFFF_FFFF then 0x7FFF_FFFF_FFFF_FFFF else n)
    ensures StrToUll(s) ==
      if n >= 0x1_0000_0000_0000_0000 then 0xFFFF_FFFF_FFFF_FFFF
      else if sign == "-" && n > 0 then 0x1_0000_0000_0000_0000 - n
      else n
  {
    ReadHead(sign, n, junk);
    if 0 < n < WORD {
      DivModUnique(0 - n, WORD, -1, WORD - n);
    }
  }

  /** A text without digits at its head reads as zero. */
  lemma NoDigitsReadZero(s: string)
    requires Unsigned(s) == [] || !IsDigit(Unsigned(s)[0])
    ensures StrToLong(s) == 0 && StrToUll(s) == 0
  {
  }

  /** The number a decimal with any number of places stands for. */
  function Decimal(whole: nat, places: string): (x: real)
    requires AllDigits(places)
    ensures x >= 0.0
  {
    NotNegative(DigitsValue(places), Pow10(|places|));
    whole as real + DigitsValue(places) as real / Pow10(|places|) as real
  }

  lemma NotNegative(a: nat, b: nat)
    requires b > 0
    ensures a as real / b as real >= 0.0
  {
  }

  lemma ReadDecimal(whole: nat, places: string)
    requires AllDigits(places)
    ensures StrToD(PrintNat(whole) + "." + places) == Decimal(whole, places)
    ensures '.' in PrintNat(whole) + "." + places
  {
    ReadPoint(PrintNat(whole), places);
    PrintedValue(whole);
    RunOfDigits(places, []);
    assert places + [] == places && places[..|places|] == places;
    assert (PrintNat(whole) + "." + places)[|PrintNat(whole)|] == '.';
  }

  /** A decimal is read as the nearest cent. */
  lemma DollarsRead(whole: nat, places: string, cents: int)
    requires AllDigits(places) && IsInt32(cents)
    requires cents as real - 0.5 <= Decimal(whole, places) * 100.0 < cents as real + 0.5
    ensures PriceTicks(PrintNat(whole) + "." + places) == cents
  {
    ReadDecimal(whole, places);
    RoundAwayIff(Decimal(whole, places) * 100.0, cents);
    CastIff(cents);
  }
}
