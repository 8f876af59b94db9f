/**
 * Decimal digit strings: Python's int() applied to a str, restricted to ASCII
 * digits, and Python's str() applied to a non-negative int.
 */
module Decimal {
  import opened Wrappers

  predicate IsDigit(c: char) {
    '0' <= c <= '9'
  }

  predicate AllDigits(s: string) {
    forall i | 0 <= i < |s| :: IsDigit(s[i])
  }

  function DigitValue(c: char): nat
    requires IsDigit(c)
  {
    c as int - '0' as int
  }

  function DigitChar(d: nat): (c: char)
    requires d < 10
    ensures IsDigit(c) && DigitValue(c) == d
  {
    ('0' as int + d) as char
  }

  function Pow10(n: nat): (p: nat)
    ensures p >= 1
  {
    if n == 0 then 1 else 10 * Pow10(n - 1)
  }

  /** The number a digit string denotes, most significant digit first. */
  function Value(s: string): (v: nat)
    requires AllDigits(s)
    ensures v < Pow10(|s|)
  {
    if s == [] then 0 else Value(s[..|s| - 1]) * 10 + DigitValue(s[|s| - 1])
  }

  /** Python's int(s): a ValueError (None) unless s is a non-empty run of digits. */
  function ParseInt(s: string): (r: Option<nat>)
    ensures r.Some? <==> s != [] && AllDigits(s)
    ensures r.Some? ==> r.value < Pow10(|s|)
  {
    if s != [] && AllDigits(s) then Some(Value(s)) else None
  }

  /** Python's str(n): the shortest decimal rendering, without leading zeros. */
  function Show(n: nat): (s: string)
    ensures AllDigits(s)
    ensures (|s| == 1) == (n < 10) && |s| >= 1
    ensures n == 0 || s[0] != '0'
  {
    if n < 10 then [DigitChar(n)] else Show(n / 10) + [DigitChar(n % 10)]
  }

  /** n written with exactly w digits, zero-padded on the left. */
  function Pad(n: nat, w: nat): (s: string)
    ensures |s| == w && AllDigits(s)
  {
    if w == 0 then [] else Pad(n / 10, w - 1) + [DigitChar(n % 10)]
  }

  lemma ValueSnoc(s: string, c: char)
    requires AllDigits(s) && IsDigit(c)
    ensures AllDigits(s + [c]) && Value(s + [c]) == Value(s) * 10 + DigitValue(c)
  {
  }

  /** str() and int() are inverse: int(str(n)) == n. */
  lemma {:induction false} ParseShow(n: nat)
    ensures ParseInt(Show(n)) == Some(n)
  {
    if n >= 10 {
      ParseShow(n / 10);
      ValueSnoc(Show(n / 10), DigitChar(n % 10));
    }
  }

  /** A zero-padded rendering of a number that fits reads back as that number. */
  lemma {:induction false} ValueOfPad(n: nat, w: nat)
    requires n < Pow10(w)
    ensures Value(Pad(n, w)) == n
  {
    if w > 0 {
      ValueOfPad(n / 10, w - 1);
      ValueSnoc(Pad(n / 10, w - 1), DigitChar(n % 10));
    }
  }

  lemma ShiftDigit(x: nat, p: nat, y: nat, d: nat)
    ensures (x * p + y) * 10 + d == x * (10 * p) + (y * 10 + d)
  {
  }

  /** Reading a concatenation of digit strings: the left part is shifted by |b| places. */
  lemma {:induction false} ValueAppend(a: string, b: string)
    requires AllDigits(a) && AllDigits(b)
    ensures AllDigits(a + b) && Value(a + b) == Value(a) * Pow10(|b|) + Value(b)
  {
    if b == [] {
      assert a + b == a;
    } else {
      var b' := b[..|b| - 1];
      var c := b[|b| - 1];
      ValueAppend(a, b');
      assert a + b == (a + b') + [c];
      assert b == b' + [c];
      ValueSnoc(a + b', c);
      ValueSnoc(b', c);
      ShiftDigit(Value(a), Pow10(|b'|), Value(b'), DigitValue(c));
    }
  }

  /** For a four-digit year, str(year)[:2] is the rendering of its century. */
  lemma LeadingPair(year: nat)
    requires 1000 <= year <= 9999
    ensures |Show(year)| == 4 && Show(year)[..2] == Show(year / 100)
  {
  }

  /** int(str(year)[:2] + yy) for a four-digit year: the century followed by yy. */
  lemma CenturyValue(year: nat, yy: string)
    requires 1000 <= year <= 9999
    requires |yy| == 2 && AllDigits(yy)
    ensures ParseInt(Show(year)[..2] + yy) == Some(year / 100 * 100 + Value(yy))
  {
    LeadingPair(year);
    ParseShow(year / 100);
    ValueAppend(Show(year / 100), yy);
    assert Pow10(2) == 100;
  }
}
