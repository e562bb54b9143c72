/**
 Shared vocabulary for the lecture-site model: an Option type, ASCII
 digits, the decimal rendering JavaScript uses for a non-negative integer in
 a template string, and counting the set flags of a row of elements.
 */
module Common {

  datatype Option<T> = None | Some(value: T)

  /** JavaScript's `\d`: an ASCII decimal digit. */
  predicate IsDigit(c: char) {
    '0' <= c <= '9'
  }

  predicate AllDigits(s: string) {
    forall i :: 0 <= i < |s| ==> IsDigit(s[i])
  }

  function DigitChar(d: nat): (c: char)
    requires d < 10
    ensures IsDigit(c) && c as int - '0' as int == d
  {
    ('0' as int + d) as char
  }

  function DigitValue(c: char): (d: nat)
    requires IsDigit(c)
    ensures d < 10
  {
    c as int - '0' as int
  }

  /** `${n}` for a non-negative integer: its shortest decimal spelling. */
  function Decimal(n: nat): (s: string)
    ensures |s| >= 1 && AllDigits(s)
    ensures s[0] == '0' <==> n == 0
    ensures |s| > 1 ==> s[0] != '0'
  {
    if n < 10 then [DigitChar(n)] else Decimal(n / 10) + [DigitChar(n % 10)]
  }

  /** The number a string of decimal digits spells. */
  function DigitsValue(s: string): nat
    requires AllDigits(s)
  {
    if s == [] then 0 else 10 * DigitsValue(s[..|s| - 1]) + DigitValue(s[|s| - 1])
  }

  /** Reading back what `Decimal` wrote gives the number again. */
  lemma {:induction false} DecimalRoundTrip(n: nat)
    ensures DigitsValue(Decimal(n)) == n
  {
    if n >= 10 {
      var s := Decimal(n);
      assert s[..|s| - 1] == Decimal(n / 10);
      DecimalRoundTrip(n / 10);
    }
  }

  /** A number written in front of text that does not start with a digit
      is the whole leading run of digits, and reads back as the number. */
  lemma ReadLeadingNumber(n: nat, rest: string)
    requires rest != [] && !IsDigit(rest[0])
    ensures var s, k := Decimal(n) + rest, |Decimal(n)|;
      k < |s| && AllDigits(s[..k]) && !IsDigit(s[k]) && DigitsValue(s[..k]) == n
  {
    var d := Decimal(n);
    assert (d + rest)[..|d|] == d;
    DecimalRoundTrip(n);
  }

  /** How many of a row of class flags are set (a `querySelectorAll(...).length`). */
  function CountTrue(s: seq<bool>): (n: nat)
    ensures n <= |s|
  {
    if s == [] then 0 else CountTrue(s[..|s| - 1]) + (if s[|s| - 1] then 1 else 0)
  }

  /** Every flag is set exactly when the count reaches the length. */
  lemma {:induction false} CountAllIff(s: seq<bool>)
    ensures CountTrue(s) == |s| <==> forall j :: 0 <= j < |s| ==> s[j]
  {
    if s != [] {
      var init := s[..|s| - 1];
      CountAllIff(init);
      assert forall j :: 0 <= j < |init| ==> init[j] == s[j];
    }
  }

  /** No flag is set exactly when the count is zero. */
  lemma {:induction false} CountNoneIff(s: seq<bool>)
    ensures CountTrue(s) == 0 <==> forall j :: 0 <= j < |s| ==> !s[j]
  {
    if s != [] {
      var init := s[..|s| - 1];
      CountNoneIff(init);
      assert forall j :: 0 <= j < |init| ==> init[j] == s[j];
    }
  }

  /** Changing one flag moves the count by the change at that flag only. */
  lemma {:induction false} CountUpdate(s: seq<bool>, i: nat, b: bool)
    requires i < |s|
    ensures CountTrue(s[i := b]) == CountTrue(s) - (if s[i] then 1 else 0) + (if b then 1 else 0)
  {
    var t := s[i := b];
    if i == |s| - 1 {
      assert t[..|t| - 1] == s[..|s| - 1];
    } else {
      assert t[..|t| - 1] == s[..|s| - 1][i := b];
      CountUpdate(s[..|s| - 1], i, b);
    }
  }
}
