/** Numerals as strings: what itoa, itoh and atoi of lib/string.c compute. */
module Numerals {

  const INT_MIN := -0x8000_0000

  type Int32 = x: int | -0x8000_0000 <= x < 0x8000_0000

  predicate IsBase(b: nat) { b == 10 || b == 16 }

  function DigitChar(d: nat): char
    requires d < 16
  {
    if d < 10 then '0' + d as char else 'A' + (d - 10) as char
  }

  /** The digit a character stands for; 16 for none. */
  function DigitVal(c: char): nat {
    if '0' <= c <= '9' then (c - '0') as nat
    else if 'A' <= c <= 'F' then 10 + (c - 'A') as nat
    else 16
  }

  /** Positional notation without leading zeros. */
  function Digits(n: nat, b: nat): string
    requires IsBase(b)
  {
    if n < b then [DigitChar(n)] else Digits(n / b, b) + [DigitChar(n % b)]
  }

  predicate AllDigits(s: string, b: nat) {
    forall i :: 0 <= i < |s| ==> DigitVal(s[i]) < b
  }

  function Value(s: string, b: nat): nat {
    if s == [] then 0 else Value(s[..|s| - 1], b) * b + DigitVal(s[|s| - 1])
  }

  predicate Canonical(s: string, b: nat) {
    s != [] && AllDigits(s, b) && (|s| > 1 ==> s[0] != '0')
  }

  function Pow(b: nat, k: nat): nat { if k == 0 then 1 else b * Pow(b, k - 1) }

  lemma {:induction false} DigitRoundTrip(d: nat)
    requires d < 16
    ensures DigitVal(DigitChar(d)) == d
  {
  }

  lemma {:induction false} CharRoundTrip(c: char)
    requires DigitVal(c) < 16
    ensures DigitChar(DigitVal(c)) == c
  {
  }

  lemma {:induction false} DigitTable(d: nat)
    requires d < 16
    ensures DigitChar(d) == "0123456789ABCDEF"[d]
  {
  }

  /** Only digits of the table appear, and in base ten only decimal ones. */
  lemma {:induction false} DigitsInTable(n: nat, b: nat)
    requires IsBase(b)
    ensures forall k :: 0 <= k < |Digits(n, b)| ==> Digits(n, b)[k] in "0123456789ABCDEF"[..b]
  {
    var t := "0123456789ABCDEF";
    DigitTable(n % b);
    assert t[..b][n % b] == t[n % b];
    if n >= b {
      DigitsInTable(n / b, b);
    }
  }

  /** Notation of n: canonical, with value n. */
  lemma {:induction false} DigitsCanonical(n: nat, b: nat)
    requires IsBase(b)
    ensures Canonical(Digits(n, b), b) && Value(Digits(n, b), b) == n
    ensures n > 0 ==> Digits(n, b)[0] != '0'
  {
    var s := Digits(n, b);
    DigitRoundTrip(n % b);
    if n >= b {
      DigitsCanonical(n / b, b);
      assert s[..|s| - 1] == Digits(n / b, b);
    } else {
      DigitRoundTrip(n);
      assert s[..0] == [];
    }
  }

  /** The notation is the only canonical one. */
  lemma {:induction false} DigitsUnique(s: string, b: nat)
    requires IsBase(b) && Canonical(s, b)
    ensures Digits(Value(s, b), b) == s
    ensures |s| > 1 ==> Value(s, b) >= b
    decreases |s|
  {
    hide DigitVal, DigitChar;
    var last := DigitVal(s[|s| - 1]);
    CharRoundTrip(s[|s| - 1]);
    if |s| == 1 {
      assert s[..0] == [] && Value(s, b) == last;
    } else {
      var rest := s[..|s| - 1];
      DigitsUnique(rest, b);
      PositiveValue(rest, b);
      DivMod(Value(rest, b), last, b);
      assert s == rest + [s[|s| - 1]];
    }
  }

  lemma {:induction false} DivMod(x: nat, d: nat, b: nat)
    requires IsBase(b) && d < b
    ensures (x * b + d) / b == x && (x * b + d) % b == d && (x >= 1 ==> x * b + d >= b)
  {
    if b == 10 {
      assert (x * 10 + d) / 10 == x;
    } else {
      assert (x * 16 + d) / 16 == x;
    }
  }

  lemma {:induction false} PositiveValue(s: string, b: nat)
    requires IsBase(b) && s != [] && AllDigits(s, b) && s[0] != '0'
    ensures Value(s, b) >= 1
    decreases |s|
  {
    if |s| > 1 {
      PositiveValue(s[..|s| - 1], b);
    } else {
      CharRoundTrip(s[0]);
    }
  }

  lemma {:induction false} DigitsLength(n: nat, b: nat, k: nat)
    requires IsBase(b) && k > 0 && n < Pow(b, k)
    ensures 1 <= |Digits(n, b)| <= k
  {
    if n >= b {
      assert k > 1;
      DigitsLength(n / b, b, k - 1);
    }
  }

  // ---- itoa and atoi -----------------------------------------------------------------

  /** What itoa leaves in its buffer. Negating INT_MIN overflows back to it; its remainder by
      ten is then -8, and the character eight below '0' is '('. */
  function ItoaText(n: Int32): string {
    if n == INT_MIN then "-(" else if n < 0 then "-" + Digits(-n, 10) else Digits(n, 10)
  }

  predicate IsDecimal(c: char) { '0' <= c <= '9' }

  /** Length of the leading run of decimal digits. */
  function DigitRun(t: string): (k: nat)
    ensures k <= |t| && (forall i :: 0 <= i < k ==> IsDecimal(t[i])) && (k < |t| ==> !IsDecimal(t[k]))
  {
    if t == [] || !IsDecimal(t[0]) then 0 else 1 + DigitRun(t[1..])
  }

  function Unsigned(t: string): string { if t != [] && t[0] == '-' then t[1..] else t }

  /** atoi: an optional minus, then as many digits as there are. */
  function AtoiText(t: string): int {
    var u := Unsigned(t);
    var v: int := Value(u[..DigitRun(u)], 10);
    if t != [] && t[0] == '-' then -v else v
  }

  lemma {:induction false} DigitRunAll(t: string)
    requires AllDigits(t, 10)
    ensures DigitRun(t) == |t|
  {
    if t != [] {
      assert DigitVal(t[0]) < 10;
      DigitRunAll(t[1..]);
    }
  }

  lemma {:induction false} AtoiSigned(neg: bool, m: nat)
    ensures AtoiText(if neg then "-" + Digits(m, 10) else Digits(m, 10)) == if neg then 0 - m else m
  {
    var d := Digits(m, 10);
    DigitsCanonical(m, 10);
    DigitRunAll(d);
    assert d[..|d|] == d;
    assert d[0] != '-' by { assert DigitVal(d[0]) < 10; }
    assert ("-" + d)[1..] == d;
  }

  /** Leading zeros do not matter to atoi, nor what follows the digits. */
  lemma {:induction false} AtoiReads(neg: bool, d: string, rest: string)
    requires d != [] && AllDigits(d, 10) && (rest == [] || !IsDecimal(rest[0]))
    ensures AtoiText((if neg then "-" else "") + d + rest) == if neg then 0 - Value(d, 10) else Value(d, 10)
  {
    DigitRunOf(d, rest);
    assert DigitVal(d[0]) < 10 && d[0] != '-';
    assert (d + rest)[..|d|] == d;
    var t := (if neg then "-" else "") + d + rest;
    if neg {
      assert t[1..] == d + rest;
    } else {
      assert t == d + rest;
    }
  }

  lemma {:induction false} DigitRunOf(d: string, rest: string)
    requires AllDigits(d, 10) && (rest == [] || !IsDecimal(rest[0]))
    ensures DigitRun(d + rest) == |d|
    decreases |d|
  {
    if d == [] {
      assert d + rest == rest;
    } else {
      assert DigitVal(d[0]) < 10;
      assert (d + rest)[1..] == d[1..] + rest;
      DigitRunOf(d[1..], rest);
    }
  }

  /** atoi undoes itoa on every 32-bit integer but INT_MIN. */
  lemma {:induction false} ItoaAtoi(n: Int32)
    ensures AtoiText(ItoaText(n)) == n <==> n != INT_MIN
  {
    if n == INT_MIN {
      var u := Unsigned("-(");
      assert u == "(" && u[..0] == [];
    } else {
      var m: nat := if n < 0 then -n else n;
      AtoiSigned(n < 0, m);
    }
  }

  /** The text of every 32-bit integer but INT_MIN is an optional minus before a canonical
      numeral, at most eleven characters in all; zero has no minus. */
  lemma {:induction false} ItoaCanonical(n: Int32)
    requires n != INT_MIN
    ensures var t := ItoaText(n);
      && 1 <= |t| <= 11 && Canonical(Unsigned(t), 10)
      && (t[0] == '-' <==> n < 0) && forall i :: 0 <= i < |t| ==> t[i] != '\0'
  {
    var m: nat := if n < 0 then -n else n;
    var d := Digits(m, 10);
    DigitsCanonical(m, 10);
    assert Pow(10, 2) == 100 && Pow(10, 4) == 10000 && Pow(10, 6) == 1000000 && Pow(10, 8) == 100000000;
    assert Pow(10, 10) == 10000000000;
    DigitsLength(m, 10, 10);
    assert n < 0 ==> ("-" + d)[1..] == d;
  }

  /** Eight hexadecimal digits are enough for a word. */
  lemma {:induction false} HexLength(u: nat)
    requires u < 0x1_0000_0000
    ensures 1 <= |Digits(u, 16)| <= 8
  {
    assert Pow(16, 2) == 0x100 && Pow(16, 4) == 0x1_0000 && Pow(16, 6) == 0x100_0000;
    assert Pow(16, 8) == 0x1_0000_0000;
    DigitsLength(u, 16, 8);
  }
}
