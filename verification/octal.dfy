/**
 Octal rendering of permission words, as the chmod getter produces it:
 `substr(sprintf('%o', $perms), -4)`.
 */
module Octal {

  predicate IsDigit(c: char)
  {
    '0' <= c <= '7'
  }

  function Digit(d: nat): (c: char)
    requires d < 8
    ensures IsDigit(c)
  {
    ('0' as int + d) as char
  }

  function DigitValue(c: char): (d: nat)
    requires IsDigit(c)
    ensures d < 8 && Digit(d) == c
  {
    c as int - '0' as int
  }

  predicate AllDigits(s: string)
  {
    forall i :: 0 <= i < |s| ==> IsDigit(s[i])
  }

  /** sprintf('%o', n): the octal digits of n, most significant first, no padding. */
  function Format(n: nat): (s: string)
    ensures 1 <= |s| && AllDigits(s)
    ensures n >= 8 ==> |s| >= 2
    decreases n
  {
    if n < 8 then [Digit(n)] else Format(n / 8) + [Digit(n % 8)]
  }

  /** The value of a string of octal digits. */
  function Parse(s: string): nat
    requires AllDigits(s)
  {
    if s == [] then 0 else Parse(s[..|s| - 1]) * 8 + DigitValue(s[|s| - 1])
  }

  /** Parsing undoes formatting. */
  lemma {:induction false} ParseFormat(n: nat)
    ensures Parse(Format(n)) == n
    decreases n
  {
    if n >= 8 {
      var s := Format(n);
      assert s[..|s| - 1] == Format(n / 8);
      ParseFormat(n / 8);
    }
  }

  /** substr($s, -4): the last four characters, or all of a shorter string. */
  function Last4(s: string): (r: string)
    ensures |r| == if |s| < 4 then |s| else 4
    ensures r == s[|s| - |r|..]
  {
    if |s| <= 4 then s else s[|s| - 4..]
  }

  /** Four octal digits, zero-padded: how permission bits are conventionally written ("0755"). */
  function FourDigits(m: nat): (s: string)
    requires m < 4096
    ensures |s| == 4 && AllDigits(s)
  {
    [Digit(m / 512), Digit(m / 64 % 8), Digit(m / 8 % 8), Digit(m % 8)]
  }

  lemma ParseFourDigits(m: nat)
    requires m < 4096
    ensures Parse(FourDigits(m)) == m
  {
    var s := FourDigits(m);
    assert s[..3][..2][..1][..0] == [];
    assert Parse(s[..1]) == m / 512;
    DivSplit(m / 8);
    DivSplit(m / 64);
    assert m / 64 / 8 == m / 512;
    assert m / 8 / 8 == m / 64;
    assert s[..3][..2] == s[..2];
    assert s[..2][..1] == s[..1];
    assert DigitValue(s[1]) == m / 64 % 8;
    assert DigitValue(s[2]) == m / 8 % 8;
    assert DigitValue(s[3]) == m % 8;
    assert Parse(s[..2]) == m / 64;
    assert Parse(s[..3]) == m / 8;
    assert s[..4] == s;
  }

  lemma DivSplit(x: nat)
    ensures x / 8 * 8 + x % 8 == x
  {
  }

  /** Four octal digits are peeled off the end of the rendering of any value of at least five digits. */
  lemma FormatSplit(n: nat)
    requires n >= 4096
    ensures Format(n) == Format(n / 4096) + [Digit(n / 512 % 8), Digit(n / 64 % 8), Digit(n / 8 % 8), Digit(n % 8)]
  {
    assert n / 8 / 8 == n / 64;
    assert n / 64 / 8 == n / 512;
    assert n / 512 / 8 == n / 4096;
    var d3, d2, d1, d0 := Digit(n / 512 % 8), Digit(n / 64 % 8), Digit(n / 8 % 8), Digit(n % 8);
    var high := Format(n / 4096);
    assert Format(n / 512) == high + [d3];
    assert Format(n / 64) == high + [d3] + [d2];
    assert Format(n / 8) == high + [d3] + [d2] + [d1];
    assert Format(n) == high + [d3] + [d2] + [d1] + [d0];
    assert high + [d3] + [d2] + [d1] + [d0] == high + [d3, d2, d1, d0];
  }

  /** Dividing by 8^k splits off the bits above 12 unchanged. */
  lemma HighDigits(n: nat, d: nat)
    requires d == 512 || d == 64 || d == 8 || d == 1
    ensures n / d == 4096 / d * (n / 4096) + n % 4096 / d
  {
    var a, m := n / 4096, n % 4096;
    assert n == 4096 * a + m;
    var b, c := m / d, m % d;
    assert m == d * b + c;
    assert n == d * (4096 / d * a + b) + c;
  }

  /** The octal digit of weight `d` is the same in `n` and in its low 12 bits. */
  lemma LowDigit(n: nat, d: nat)
    requires d == 512 || d == 64 || d == 8 || d == 1
    ensures n % 4096 / d % 8 == n / d % 8
  {
    HighDigits(n, d);
    var k := 4096 / d / 8;
    assert 4096 / d == 8 * k;
    var a, b := n / 4096, n % 4096 / d;
    assert n / d == 8 * (k * a) + b;
    ModMultiple(k * a, b);
  }

  lemma ModMultiple(x: nat, b: nat)
    ensures (8 * x + b) % 8 == b % 8
  {
  }

  lemma TopDigit(m: nat)
    requires m < 4096
    ensures m / 512 % 8 == m / 512
  {
  }

  /** The zero-padded permission digits of the low 12 bits are the last four digits of the whole word. */
  lemma LowFourDigits(n: nat)
    ensures FourDigits(n % 4096) == [Digit(n / 512 % 8), Digit(n / 64 % 8), Digit(n / 8 % 8), Digit(n % 8)]
  {
    LowDigit(n, 512);
    LowDigit(n, 64);
    LowDigit(n, 8);
    LowDigit(n, 1);
    TopDigit(n % 4096);
  }

  lemma Last4OfConcat(high: string, t: string)
    requires |t| == 4
    ensures Last4(high + t) == t
  {
    assert (high + t)[|high|..] == t;
  }

  /** The last four digits of a permission word of five or more octal digits are its permission bits, zero-padded. */
  lemma Last4OfFormat(n: nat)
    requires n >= 4096
    ensures Last4(Format(n)) == FourDigits(n % 4096)
  {
    FormatSplit(n);
    LowFourDigits(n);
    Last4OfConcat(Format(n / 4096), FourDigits(n % 4096));
  }
}
