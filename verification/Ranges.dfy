/** Number strings: strtol and sprintf as the range code uses them, string validity, and the range check. */
module Ranges {
  import opened Exprs

  const INT_MIN: int := -0x8000_0000
  const INT_MAX: int := 0x7FFF_FFFF
  const LONG_MIN: int := -0x8000_0000_0000_0000
  const LONG_MAX: int := 0x7FFF_FFFF_FFFF_FFFF

  // ----- characters -----

  predicate IsDigit(c: char) {
    '0' <= c <= '9'
  }

  predicate IsHexDigit(c: char) {
    IsDigit(c) || 'a' <= c <= 'f' || 'A' <= c <= 'F'
  }

  predicate IsSpace(c: char) {
    c == ' ' || (9 as char) <= c <= (13 as char)
  }

  function DigitValue(c: char): nat
    requires IsHexDigit(c)
  {
    if IsDigit(c) then (c - '0') as int
    else if 'a' <= c <= 'f' then (c - 'a') as int + 10
    else (c - 'A') as int + 10
  }

  predicate IsDigitOf(c: char, base: nat) {
    if base == 16 then IsHexDigit(c) else IsDigit(c)
  }

  // ----- strtol and sprintf("%d") -----

  /** Reads digits as long as there are any. */
  function Digits(s: string, base: nat, acc: nat): nat {
    if s == [] || !IsDigitOf(s[0], base) then acc
    else
      assert IsHexDigit(s[0]);
      Digits(s[1..], base, acc * base + DigitValue(s[0]))
  }

  function SkipSpaces(s: string): string {
    if s != [] && IsSpace(s[0]) then SkipSpaces(s[1..]) else s
  }

  function SkipHexPrefix(s: string, base: nat): string {
    if base == 16 && |s| >= 3 && s[0] == '0' && (s[1] == 'x' || s[1] == 'X') && IsHexDigit(s[2]) then s[2..] else s
  }

  function ToLong(x: int): int {
    if x < LONG_MIN then LONG_MIN else if x > LONG_MAX then LONG_MAX else x
  }

  /** Storing a long in an int keeps the low 32 bits. */
  function ToInt(x: int): int {
    var low := x % 0x1_0000_0000;
    if low > INT_MAX then low - 0x1_0000_0000 else low
  }

  /** (int)strtol(s, NULL, base) */
  function Strtol(s: string, base: nat): int {
    var t := SkipSpaces(s);
    var negative := t != [] && t[0] == '-';
    var u := if t != [] && (t[0] == '-' || t[0] == '+') then t[1..] else t;
    var n: int := Digits(SkipHexPrefix(u, base), base, 0);
    ToInt(ToLong(if negative then -n else n))
  }

  function PrintNat(n: nat): string
    ensures PrintNat(n) != []
  {
    var last := [('0' as int + n % 10) as char];
    if n < 10 then last else PrintNat(n / 10) + last
  }

  function PrintInt(n: int): string {
    if n < 0 then "-" + PrintNat(-n) else PrintNat(n)
  }

  function PrintHexNat(n: nat): string {
    var d := n % 16;
    var last := [if d < 10 then ('0' as int + d) as char else ('a' as int + d - 10) as char];
    if n < 16 then last else PrintHexNat(n / 16) + last
  }

  /** sprintf with "%d" or with "0x%x", which shows the 32 bits as unsigned. */
  function PrintBound(typ: SymType, n: int): string {
    if typ == TInt then PrintInt(n) else "0x" + PrintHexNat(n % 0x1_0000_0000)
  }

  // ----- sym_string_valid -----

  predicate AllDigits(s: string) {
    forall i :: 0 <= i < |s| ==> IsDigit(s[i])
  }

  /** The S_INT branch: an optional minus, then digits without a leading zero unless that is all. */
  predicate IntStringValid(s: string) {
    var t := if s != [] && s[0] == '-' then s[1..] else s;
    t != [] && IsDigit(t[0]) && (t[0] == '0' ==> |t| == 1) && AllDigits(t[1..])
  }

  // ----- sym_validate_range -----

  function Base(typ: SymType): nat {
    if typ == THex then 16 else 10
  }

  /** sym_get_range_val: the bound's own type chooses the base if it is int or hex. */
  function BoundValue(boundTyp: SymType, str: string, base: nat): int {
    Strtol(str, if boundTyp == TInt then 10 else if boundTyp == THex then 16 else base)
  }

  datatype Bound = Bound(typ: SymType, str: string)

  function ValidateRange(typ: SymType, str: string, lo: Bound, hi: Bound): string {
    var base := Base(typ);
    var val := Strtol(str, base);
    var low, high := BoundValue(lo.typ, lo.str, base), BoundValue(hi.typ, hi.str, base);
    if val >= low then
      if val <= high then str else PrintBound(typ, high)
    else PrintBound(typ, low)
  }

  /** The S_INT branch of sym_string_within_range when a range is active. */
  predicate IntWithinRange(str: string, lo: Bound, hi: Bound) {
    IntStringValid(str) &&
    BoundValue(lo.typ, lo.str, 10) <= Strtol(str, 10) <= BoundValue(hi.typ, hi.str, 10)
  }

  // ----- reading back what was printed -----

  lemma {:induction false} DigitsSnoc(s: string, c: char, acc: nat)
    requires AllDigits(s) && IsDigit(c)
    ensures Digits(s + [c], 10, acc) == 10 * Digits(s, 10, acc) + DigitValue(c)
  {
    if s == [] {
      assert Digits([c][1..], 10, acc * 10 + DigitValue(c)) == acc * 10 + DigitValue(c);
    } else {
      assert (s + [c])[1..] == s[1..] + [c];
      DigitsSnoc(s[1..], c, acc * 10 + DigitValue(s[0]));
    }
  }

  lemma {:induction false} PrintNatReadsBack(n: nat)
    ensures AllDigits(PrintNat(n)) && Digits(PrintNat(n), 10, 0) == n
    ensures PrintNat(n)[0] == '0' ==> n == 0 && |PrintNat(n)| == 1
  {
    var c := ('0' as int + n % 10) as char;
    if n < 10 {
      DigitsSnoc([], c, 0);
      assert [] + [c] == [c];
    } else {
      PrintNatReadsBack(n / 10);
      DigitsSnoc(PrintNat(n / 10), c, 0);
    }
  }

  lemma ToIntFixesInts(n: int)
    requires INT_MIN <= n <= INT_MAX
    ensures ToInt(ToLong(n)) == n
  {
  }

  lemma PrintIntIsValid(n: int)
    ensures IntStringValid(PrintInt(n))
  {
    var p := PrintNat(if n < 0 then -n else n);
    PrintNatReadsBack(if n < 0 then -n else n);
    assert ("-" + p)[1..] == p;
  }

  /** Printing an int and reading it with strtol gives it back, and what is printed is a valid int string. */
  lemma PrintIntReadsBack(n: int)
    requires INT_MIN <= n <= INT_MAX
    ensures Strtol(PrintInt(n), 10) == n
    ensures IntStringValid(PrintInt(n)) && (PrintInt(n)[0] == '-' <==> n < 0)
  {
    var p := PrintNat(if n < 0 then -n else n);
    PrintNatReadsBack(if n < 0 then -n else n);
    PrintIntIsValid(n);
    var t := PrintInt(n);
    assert SkipSpaces(t) == t;
    var u := if t[0] == '-' || t[0] == '+' then t[1..] else t;
    assert u == p;
    ToIntFixesInts(n);
  }

  lemma StrtolIsInt(s: string, base: nat)
    ensures INT_MIN <= Strtol(s, base) <= INT_MAX
  {
  }

  /** The range check on an int symbol: a value in range stays as it is, any other becomes a bound, the
      lower one if it was too small. */
  lemma ValidateRangeInt(str: string, lo: Bound, hi: Bound)
    ensures var low, high := BoundValue(lo.typ, lo.str, 10), BoundValue(hi.typ, hi.str, 10);
      var r := ValidateRange(TInt, str, lo, hi);
      && (low <= Strtol(str, 10) <= high ==> r == str)
      && (Strtol(str, 10) < low ==> Strtol(r, 10) == low && IntStringValid(r))
      && (low <= Strtol(str, 10) && high < Strtol(str, 10) ==> Strtol(r, 10) == high && IntStringValid(r))
  {
    var low, high := BoundValue(lo.typ, lo.str, 10), BoundValue(hi.typ, hi.str, 10);
    StrtolIsInt(lo.str, if lo.typ == THex then 16 else 10);
    StrtolIsInt(hi.str, if hi.typ == THex then 16 else 10);
    PrintIntReadsBack(low);
    PrintIntReadsBack(high);
  }

  /** The result of the check passes sym_string_within_range for every valid input exactly if the range is
      not empty; an empty range always leaves a bound that is outside it. */
  lemma ValidateRangeAcceptedIff(str: string, lo: Bound, hi: Bound)
    requires IntStringValid(str)
    ensures IntWithinRange(ValidateRange(TInt, str, lo, hi), lo, hi)
      <==> BoundValue(lo.typ, lo.str, 10) <= BoundValue(hi.typ, hi.str, 10)
  {
    ValidateRangeInt(str, lo, hi);
  }

  // ----- hex symbols -----

  predicate AllHexOf(s: string) {
    forall i :: 0 <= i < |s| ==> IsHexDigit(s[i])
  }

  function HexChar(d: nat): char
    requires d < 16
  {
    if d < 10 then ('0' as int + d) as char else ('a' as int + d - 10) as char
  }

  lemma {:induction false} HexDigitsSnoc(s: string, c: char, acc: nat)
    requires AllHexOf(s) && IsHexDigit(c)
    ensures Digits(s + [c], 16, acc) == 16 * Digits(s, 16, acc) + DigitValue(c)
  {
    if s == [] {
      assert Digits([c][1..], 16, acc * 16 + DigitValue(c)) == acc * 16 + DigitValue(c);
    } else {
      assert (s + [c])[1..] == s[1..] + [c];
      HexDigitsSnoc(s[1..], c, acc * 16 + DigitValue(s[0]));
    }
  }

  lemma {:induction false} PrintHexReadsBack(n: nat)
    ensures PrintHexNat(n) != [] && AllHexOf(PrintHexNat(n)) && Digits(PrintHexNat(n), 16, 0) == n
  {
    var c := HexChar(n % 16);
    if n < 16 {
      HexDigitsSnoc([], c, 0);
      assert [] + [c] == [c] && PrintHexNat(n) == [c];
    } else {
      PrintHexReadsBack(n / 16);
      HexDigitsSnoc(PrintHexNat(n / 16), c, 0);
      assert PrintHexNat(n) == PrintHexNat(n / 16) + [c];
    }
  }

  lemma LowWordIsInt(n: int)
    requires INT_MIN <= n <= INT_MAX
    ensures ToInt(ToLong(n % 0x1_0000_0000)) == n
  {
  }

  /** A printed bound reads back as the bound, also a negative one of a hex symbol, which is printed as its low
      32 bits. */
  lemma PrintBoundReadsBack(typ: SymType, n: int)
    requires (typ == TInt || typ == THex) && INT_MIN <= n <= INT_MAX
    ensures Strtol(PrintBound(typ, n), Base(typ)) == n
  {
    if typ == TInt {
      PrintIntReadsBack(n);
    } else {
      var p := PrintHexNat(n % 0x1_0000_0000);
      PrintHexReadsBack(n % 0x1_0000_0000);
      var t := "0x" + p;
      assert SkipSpaces(t) == t && t[2] == p[0] && t[2..] == p;
      assert SkipHexPrefix(t, 16) == p;
      LowWordIsInt(n);
    }
  }

  /** The text of a bound is read as its own type says if that is int or hex, and otherwise as that of the symbol
      whose range it is. */
  lemma BoundReads(typ: SymType, boundTyp: SymType, n: int)
    requires (typ == TInt || typ == THex) && INT_MIN <= n <= INT_MAX
    ensures var text := PrintBound(if boundTyp == TInt || boundTyp == THex then boundTyp else typ, n);
      BoundValue(boundTyp, text, Base(typ)) == n
  {
    PrintBoundReadsBack(TInt, n);
    PrintBoundReadsBack(THex, n);
  }

  /** The range check, for int and hex symbols: a value in range stays as it is; any other becomes a bound, the
      lower one if it was too small. */
  lemma ValidateRangeHolds(typ: SymType, str: string, lo: Bound, hi: Bound)
    requires typ == TInt || typ == THex
    ensures var base := Base(typ); var low, high := BoundValue(lo.typ, lo.str, base), BoundValue(hi.typ, hi.str, base);
      var r := ValidateRange(typ, str, lo, hi);
      && (low <= Strtol(str, base) <= high ==> r == str)
      && (Strtol(str, base) < low ==> Strtol(r, base) == low)
      && (low <= Strtol(str, base) && high < Strtol(str, base) ==> Strtol(r, base) == high)
  {
    var base := Base(typ);
    var low, high := BoundValue(lo.typ, lo.str, base), BoundValue(hi.typ, hi.str, base);
    StrtolIsInt(lo.str, if lo.typ == TInt then 10 else if lo.typ == THex then 16 else base);
    StrtolIsInt(hi.str, if hi.typ == TInt then 10 else if hi.typ == THex then 16 else base);
    PrintBoundReadsBack(typ, low);
    PrintBoundReadsBack(typ, high);
  }

  /** Checking twice changes nothing more, if the range is not empty. */
  lemma ValidateRangeIdempotent(typ: SymType, str: string, lo: Bound, hi: Bound)
    requires typ == TInt || typ == THex
    requires BoundValue(lo.typ, lo.str, Base(typ)) <= BoundValue(hi.typ, hi.str, Base(typ))
    ensures ValidateRange(typ, ValidateRange(typ, str, lo, hi), lo, hi) == ValidateRange(typ, str, lo, hi)
  {
    ValidateRangeHolds(typ, str, lo, hi);
  }

  // ----- what strtol leaves out -----

  /** White space in front is skipped, a plus counts for nothing, and reading ends where the digits do. */
  lemma StrtolSkips(c: char, s: string, base: nat)
    requires c in " \t\n\r" || c == 11 as char || c == 12 as char
    ensures Strtol([c] + s, base) == Strtol(s, base)
  {
    assert IsSpace(c) && ([c] + s)[1..] == s;
  }

  lemma StrtolPlus(s: string, base: nat)
    requires s == [] || (s[0] != '+' && s[0] != '-' && !IsSpace(s[0]))
    ensures Strtol("+" + s, base) == Strtol(s, base)
  {
    assert ("+" + s)[1..] == s;
  }

  lemma {:induction false} DigitsStop(s: string, rest: string, base: nat, acc: nat)
    requires (forall i :: 0 <= i < |s| ==> IsDigitOf(s[i], base)) && (rest == [] || !IsDigitOf(rest[0], base))
    ensures Digits(s + rest, base, acc) == Digits(s, base, acc)
  {
    if s == [] {
      assert s + rest == rest;
    } else {
      assert (s + rest)[1..] == s[1..] + rest;
      DigitsStop(s[1..], rest, base, acc * base + DigitValue(s[0]));
    }
  }

  /** What is too large for a long becomes its largest or smallest value, of which an int keeps -1 or 0. */
  lemma StrtolOverflows(s: string)
    requires s != [] && AllDigits(s) && Digits(s, 10, 0) > LONG_MAX + 1
    ensures Strtol(s, 10) == -1 && Strtol("-" + s, 10) == 0
  {
    assert ("-" + s)[1..] == s && !IsSpace(s[0]);
  }
}
