/** Rendering of non-negative integers as text, the way Python's `str` (base
    10) and `hex` (base 16, lower case, "0x" prefix) do it: the shortest digit
    string, so there is no leading zero except for the number zero itself. */
module Numerals {

  const Alphabet: string := "0123456789abcdef"

  predicate ValidBase(base: nat) {
    2 <= base <= 16
  }

  function DigitChar(d: nat): char
    requires d < 16
  {
    Alphabet[d]
  }

  /** The value of one digit character; characters outside the alphabet read as 0. */
  function DigitValue(c: char): nat {
    if '0' <= c <= '9' then (c as int - '0' as int)
    else if 'a' <= c <= 'f' then (c as int - 'a' as int) + 10
    else 0
  }

  /** The shortest digit string of n in the given base. */
  function Digits(n: nat, base: nat): (s: string)
    requires ValidBase(base)
    ensures |s| >= 1
    ensures forall i :: 0 <= i < |s| ==> s[i] in Alphabet[..base]
    ensures s[0] == '0' ==> n == 0 && |s| == 1
    decreases n
  {
    if n < base then [DigitChar(n)]
    else
      DivisionSplits(n, base);
      var s := Digits(n / base, base) + [DigitChar(n % base)];
      assert s[0] == Digits(n / base, base)[0];
      s
  }

  /** Reads a digit string back; the partner of Digits. */
  function Value(s: string, base: nat): nat
    decreases |s|
  {
    if |s| == 0 then 0
    else Value(s[..|s| - 1], base) * base + DigitValue(s[|s| - 1])
  }

  lemma DigitRoundTrip(d: nat)
    requires d < 16
    ensures DigitValue(DigitChar(d)) == d
  {
  }

  lemma DivisionSplits(n: nat, base: nat)
    requires ValidBase(base) && n >= base
    ensures n == (n / base) * base + n % base
    ensures 0 < n / base < n
  {
  }

  /** Reading the rendering of n gives n back. */
  lemma {:induction false} ValueOfDigits(n: nat, base: nat)
    requires ValidBase(base)
    ensures Value(Digits(n, base), base) == n
    decreases n
  {
    var s := Digits(n, base);
    if n < base {
      DigitRoundTrip(n);
      assert s[..0] == [];
    } else {
      var q, r := n / base, n % base;
      DivisionSplits(n, base);
      ValueOfDigits(q, base);
      DigitRoundTrip(r);
      assert s[..|s| - 1] == Digits(q, base);
      assert s[|s| - 1] == DigitChar(r);
      calc {
        Value(s, base);
        Value(Digits(q, base), base) * base + DigitValue(DigitChar(r));
        q * base + r;
        n;
      }
    }
  }

  /** Python's str on a non-negative integer. */
  function Decimal(n: nat): string {
    Digits(n, 10)
  }

  /** Python's hex on a non-negative integer. */
  function Hex(n: nat): string {
    "0x" + Digits(n, 16)
  }

  /** s is how Python's str writes n: one or more decimal digits, no leading
      zero unless n is zero, reading back as n. */
  predicate IsDecimalOf(s: string, n: nat) {
    && |s| >= 1
    && (forall i :: 0 <= i < |s| ==> s[i] in "0123456789")
    && (s[0] == '0' ==> n == 0 && |s| == 1)
    && Value(s, 10) == n
  }

  /** Decimal gives the shortest decimal digit string, which reads back as n. */
  lemma DecimalFormat(n: nat)
    ensures IsDecimalOf(Decimal(n), n)
  {
    ValueOfDigits(n, 10);
    assert Alphabet[..10] == "0123456789";
  }

  /** Hex gives "0x" followed by the shortest lower-case hexadecimal digit
      string, which reads back as n. */
  lemma HexFormat(n: nat)
    ensures var s := Hex(n);
      && |s| >= 3 && s[..2] == "0x"
      && Value(s[2..], 16) == n
      && (s[2] == '0' ==> n == 0 && |s| == 3)
      && forall i :: 2 <= i < |s| ==> s[i] in Alphabet
  {
    var digits := Digits(n, 16);
    ValueOfDigits(n, 16);
    assert ("0x" + digits)[2..] == digits;
  }
}
