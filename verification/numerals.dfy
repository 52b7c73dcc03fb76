/**
  Positional numerals: the digit parsing behind Python's `int(text, base)` for the
  literal tokens, and the renderings `str(i)`, `hex(i)` and `bin(i)` used by the dump.
 */
module Numerals {

  predicate IsDecDigit(c: char) {
    '0' <= c <= '9'
  }

  predicate IsHexDigit(c: char) {
    IsDecDigit(c) || 'a' <= c <= 'f' || 'A' <= c <= 'F'
  }

  predicate IsBinDigit(c: char) {
    c == '0' || c == '1'
  }

  /** The value of one digit character, either case. */
  function DigitValue(c: char): (d: nat)
    requires IsHexDigit(c)
    ensures d < 16
    ensures IsDecDigit(c) <==> d < 10
    ensures IsBinDigit(c) <==> d < 2
  {
    if IsDecDigit(c) then c as int - '0' as int
    else if 'a' <= c <= 'f' then c as int - 'a' as int + 10
    else c as int - 'A' as int + 10
  }

  /** The lowercase digit character Python prints for the value `d`. */
  function DigitChar(d: nat): (c: char)
    requires d < 16
    ensures IsHexDigit(c) && DigitValue(c) == d
    ensures !('A' <= c <= 'Z')
  {
    if d < 10 then ('0' as int + d) as char else ('a' as int + d - 10) as char
  }

  /** A character that is a digit of the given base (2, 10 or 16). */
  predicate IsDigitOf(c: char, base: nat) {
    IsHexDigit(c) && DigitValue(c) < base
  }

  predicate AllDigitsOf(s: string, base: nat) {
    forall i :: 0 <= i < |s| ==> IsDigitOf(s[i], base)
  }

  /** `int(s, base)` on a string of digits: most significant digit first. */
  function Parse(s: string, base: nat): nat
    requires AllDigitsOf(s, base)
  {
    if |s| == 0 then 0
    else Parse(s[..|s| - 1], base) * base + DigitValue(s[|s| - 1])
  }

  /** A leading zero does not change what `int(s, base)` reads (`int('007') == 7`). */
  lemma {:induction false} ParseLeadingZero(s: string, base: nat)
    requires AllDigitsOf(s, base) && 0 < |s| && DigitValue(s[0]) == 0
    ensures Parse(s, base) == Parse(s[1..], base)
    decreases |s|
  {
    if 1 < |s| {
      var p := s[..|s| - 1];
      ParseLeadingZero(p, base);
      assert p[1..] == s[1..][..|s[1..]| - 1];
      assert s[1..][|s[1..]| - 1] == s[|s| - 1];
    }
  }

  /** The three bases the literals use. */
  predicate IsBase(base: nat) {
    base == 2 || base == 10 || base == 16
  }

  /** Euclidean division by one of the bases, stated linearly. */
  lemma DivideByBase(n: nat, base: nat)
    requires IsBase(base)
    ensures (n / base) * base + n % base == n && n % base < base
    ensures n >= base ==> 0 < n / base < n
  {
  }

  /** The shortest lowercase digit string of `n` in `base` (`"0"` for zero). */
  function Render(n: nat, base: nat): (s: string)
    requires IsBase(base)
    ensures 0 < |s|
    ensures AllDigitsOf(s, base)
    ensures forall i :: 0 <= i < |s| ==> !('A' <= s[i] <= 'Z')
    ensures n > 0 ==> s[0] != '0'
  {
    if n < base then [DigitChar(n)]
    else
      DivideByBase(n, base);
      Render(n / base, base) + [DigitChar(n % base)]
  }

  lemma {:induction false} ParseRender(n: nat, base: nat)
    requires IsBase(base)
    ensures Parse(Render(n, base), base) == n
    decreases n
  {
    var s := Render(n, base);
    if n < base {
      assert s[..|s| - 1] == [];
    } else {
      DivideByBase(n, base);
      var q, d := n / base, n % base;
      ParseRender(q, base);
      assert s[..|s| - 1] == Render(q, base);
      assert s[|s| - 1] == DigitChar(d);
    }
  }

  /** Python's `str(i)` for an integer. */
  function Decimal(i: int): string {
    if i < 0 then "-" + Render(-i, 10) else Render(i, 10)
  }

  /** Python's `hex(i)`: lowercase, `0x`-prefixed, sign in front. */
  function HexDisplay(i: int): string {
    if i < 0 then "-0x" + Render(-i, 16) else "0x" + Render(i, 16)
  }

  /** Python's `bin(i)`: `0b`-prefixed, sign in front. */
  function BinDisplay(i: int): string {
    if i < 0 then "-0b" + Render(-i, 2) else "0b" + Render(i, 2)
  }

  predicate IsSign(c: char) {
    c == '+' || c == '-'
  }

  /** Text the integer rule accepts: an optional sign and at least one decimal digit. */
  predicate IsIntLexeme(w: string) {
    if 0 < |w| && IsSign(w[0]) then 1 < |w| && AllDigitsOf(w[1..], 10)
    else 0 < |w| && AllDigitsOf(w, 10)
  }

  /** Python's `int(w)` on a signed decimal literal such as `-01`: the sign applied to the unsigned literal after it. */
  function ParseSigned(w: string): (v: int)
    requires IsIntLexeme(w)
    ensures w[0] == '-' ==> v <= 0
    ensures w[0] != '-' ==> 0 <= v
    ensures IsSign(w[0]) ==> IsIntLexeme(w[1..]) && !IsSign(w[1])
  {
    if w[0] == '-' then -(Parse(w[1..], 10) as int)
    else if w[0] == '+' then Parse(w[1..], 10)
    else Parse(w, 10)
  }

  /** The decimal display of every integer is an integer literal that reads back as it. */
  lemma DecimalRoundTrip(i: int)
    ensures IsIntLexeme(Decimal(i))
    ensures ParseSigned(Decimal(i)) == i
  {
    var d := Decimal(i);
    if i < 0 {
      assert d[1..] == Render(-i, 10);
      ParseRender(-i, 10);
    } else {
      ParseRender(i, 10);
    }
  }

  /** `hex(n)` of a non-negative value is `0x` followed by digits that parse back to `n`. */
  lemma HexRoundTrip(n: nat)
    ensures |HexDisplay(n)| > 2 && HexDisplay(n)[..2] == "0x"
    ensures AllDigitsOf(HexDisplay(n)[2..], 16)
    ensures Parse(HexDisplay(n)[2..], 16) == n
  {
    assert HexDisplay(n)[2..] == Render(n, 16);
    ParseRender(n, 16);
  }

  /** `bin(n)` of a non-negative value is `0b` followed by digits that parse back to `n`. */
  lemma BinRoundTrip(n: nat)
    ensures |BinDisplay(n)| > 2 && BinDisplay(n)[..2] == "0b"
    ensures AllDigitsOf(BinDisplay(n)[2..], 2)
    ensures Parse(BinDisplay(n)[2..], 2) == n
  {
    assert BinDisplay(n)[2..] == Render(n, 2);
    ParseRender(n, 2);
  }
}
