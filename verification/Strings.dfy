/** The loops of lib/string.c over character buffers that end in a zero character. */
module Strings {
  import opened Arithmetic
  import opened Numerals

  const NUL := '\0'

  /** Position k of s holds the first zero character. */
  predicate EndsAt(s: seq<char>, k: nat) {
    k < |s| && s[k] == NUL && forall i :: 0 <= i < k ==> s[i] != NUL
  }

  function Reversed(s: string): (r: string)
    ensures |r| == |s|
  {
    seq(|s|, i requires 0 <= i < |s| => s[|s| - 1 - i])
  }

  lemma {:induction false} ReversedSnoc(s: string, c: char)
    ensures Reversed(s + [c]) == [c] + Reversed(s)
  {
  }

  method Strlen(s: array<char>, ghost end: nat) returns (len: nat)
    requires EndsAt(s[..], end)
    ensures len == end
  {
    len := 0;
    while s[len] != NUL
      invariant len <= end
      decreases end - len
    {
      len := len + 1;
    }
  }

  /** Character i of a string whose terminator is left out. */
  function CharAt(s: string, i: nat): char { if i < |s| then s[i] else NUL }

  function Prefix(s: string, n: nat): string { if n < |s| then s[..n] else s }

  /** Position i is the first where the two strings differ, or where both end. */
  predicate Decides(a: string, b: string, i: nat) {
    i <= |a| && i <= |b| && a[..i] == b[..i] && (CharAt(a, i) != CharAt(b, i) || CharAt(a, i) == NUL)
  }

  method Strcmp(a: string, b: string) returns (r: int)
    requires NUL !in a && NUL !in b
    ensures r == 0 <==> a == b
    ensures exists i: nat :: Decides(a, b, i) && r == CharAt(a, i) as int - CharAt(b, i) as int
  {
    var i := 0;
    while CharAt(a, i) != NUL && CharAt(a, i) == CharAt(b, i)
      invariant 0 <= i <= |a| && i <= |b| && a[..i] == b[..i]
      decreases |a| - i
    {
      i := i + 1;
    }
    r := CharAt(a, i) as int - CharAt(b, i) as int;
    assert Decides(a, b, i);
    if r == 0 {
      assert a[..i] == a && b[..i] == b;
    }
  }

  method Strncmp(a: string, b: string, n: nat) returns (r: int)
    requires NUL !in a && NUL !in b
    ensures r == 0 <==> Prefix(a, n) == Prefix(b, n)
    ensures r != 0 ==> exists i: nat :: i < n && Decides(a, b, i) && r == CharAt(a, i) as int - CharAt(b, i) as int
  {
    if n == 0 {
      return 0;
    }
    var i, left := 0, n - 1;
    while left != 0 && CharAt(a, i) != NUL && CharAt(a, i) == CharAt(b, i)
      invariant 0 <= i <= |a| && i <= |b| && 0 <= left && i + left == n - 1 && a[..i] == b[..i]
      decreases left
    {
      i := i + 1;
      left := left - 1;
    }
    r := CharAt(a, i) as int - CharAt(b, i) as int;
    assert r != 0 ==> Decides(a, b, i);
    PrefixesAgree(a, b, n, i);
  }

  /** Comparing the characters after a common prefix settles the comparison of longer prefixes. */
  lemma {:induction false} PrefixesAgree(a: string, b: string, n: nat, i: nat)
    requires NUL !in a && NUL !in b && i < n && i <= |a| && i <= |b| && a[..i] == b[..i]
    requires i + 1 == n || CharAt(a, i) == NUL || CharAt(a, i) != CharAt(b, i)
    ensures CharAt(a, i) == CharAt(b, i) <==> Prefix(a, n) == Prefix(b, n)
  {
    assert CharAt(a, i) == CharAt(Prefix(a, n), i) && CharAt(b, i) == CharAt(Prefix(b, n), i);
    if CharAt(a, i) == CharAt(b, i) {
      if CharAt(a, i) == NUL {
        assert a[..i] == a && b[..i] == b;
      } else {
        assert a[..i + 1] == a[..i] + [a[i]] && b[..i + 1] == b[..i] + [b[i]];
      }
    }
  }

  /** reverse: swap from both ends. */
  method Reverse(s: array<char>, ghost end: nat)
    requires EndsAt(s[..], end)
    modifies s
    ensures s[..end] == Reversed(old(s[..end])) && s[end..] == old(s[end..])
  {
    var n := Strlen(s, end);
    var i, j := 0, n - 1;
    while i < j
      invariant 0 <= i && i + j == n - 1 && i <= j + 1
      invariant forall k :: 0 <= k < i ==> s[k] == old(s[n - 1 - k]) && s[n - 1 - k] == old(s[k])
      invariant forall k :: i <= k <= j ==> s[k] == old(s[k])
      invariant forall k :: n <= k < s.Length ==> s[k] == old(s[k])
    {
      var c := s[i];
      s[i] := s[j];
      s[j] := c;
      i, j := i + 1, j - 1;
    }
  }

  /** C's division and remainder by ten, which truncate toward zero. */
  function Div10(a: int): (q: int)
    ensures if a >= 0 then 0 <= q <= a else a <= q <= 0
  {
    if a >= 0 then a / 10 else -((-a) / 10)
  }

  function Mod10(a: int): int { a - 10 * Div10(a) }

  /** Two's complement negation. */
  function Negate(n: Int32): Int32 { if n == INT_MIN then n else -n }

  /** The characters itoa's loop produces for the negated argument, most significant first. */
  ghost function Magnitude(m: Int32): string
    requires m >= 0 || m == INT_MIN
  {
    if m == INT_MIN then "(" else Digits(m, 10)
  }

  lemma {:induction false} MagnitudeOf(n: Int32)
    ensures var m := if n < 0 then Negate(n) else n;
      && (m >= 0 || m == INT_MIN) && ItoaText(n) == (if n < 0 then "-" else "") + Magnitude(m)
      && 1 <= |Magnitude(m)| <= 10 && forall i :: 0 <= i < |ItoaText(n)| ==> ItoaText(n)[i] != NUL
  {
    if n != INT_MIN {
      ItoaCanonical(n);
      var m: nat := if n < 0 then -n else n;
      DigitsCanonical(m, 10);
      assert n < 0 ==> |ItoaText(n)| == 1 + |Digits(m, 10)|;
      assert n >= 0 ==> Unsigned(ItoaText(n)) == ItoaText(n);
      assert Pow(10, 2) == 100 && Pow(10, 4) == 10000 && Pow(10, 6) == 1000000 && Pow(10, 8) == 100000000;
      assert Pow(10, 10) == 10000000000;
      DigitsLength(m, 10, 10);
    }
  }

  /** The character the do-while loop writes for m. */
  function DigitOf(m: Int32): char
    requires m >= 0 || m == INT_MIN
  {
    (Mod10(m) + 48) as char
  }

  /** The digits still to come once m has been divided. */
  ghost function Rest(m: int): string { if m > 0 then Digits(m, 10) else [] }

  lemma {:induction false} NextDigit(m: Int32, s: string)
    requires m >= 0 || m == INT_MIN
    ensures Magnitude(m) + Reversed(s) == Rest(Div10(m)) + Reversed(s + [DigitOf(m)])
    ensures m > 0 ==> Rest(m) == Magnitude(m)
  {
    ReversedSnoc(s, DigitOf(m));
    if m >= 10 {
      assert Digits(m, 10) == Digits(m / 10, 10) + [DigitOf(m)];
    } else {
      assert Magnitude(m) == [DigitOf(m)];
    }
  }

  lemma {:induction false} FirstDigit(m: Int32)
    requires m >= 0 || m == INT_MIN
    ensures Magnitude(m) == Rest(Div10(m)) + Reversed([DigitOf(m)])
  {
    NextDigit(m, []);
    assert [] + [DigitOf(m)] == [DigitOf(m)];
  }

  lemma {:induction false} NoRest(m: int)
    requires m <= 0
    ensures Rest(m) == []
  {
  }

  /** One turn of the loop: text is what is still to come, then what is in the buffer. */
  lemma {:induction false} DigitStep(text: string, m: Int32, s: string)
    requires m > 0 && text == Rest(m) + Reversed(s)
    ensures text == Rest(Div10(m)) + Reversed(s + [DigitOf(m)]) && |s| < |text| && 0 <= Div10(m) < m
  {
    NextDigit(m, s);
  }

  lemma {:induction false} ReversedKeeps(s: string)
    requires forall i :: 0 <= i < |s| ==> Reversed(s)[i] != NUL
    ensures forall i :: 0 <= i < |s| ==> s[i] != NUL
  {
    forall i | 0 <= i < |s| ensures s[i] != NUL {
      assert Reversed(s)[|s| - 1 - i] == s[i];
    }
  }

  /** itoa, for every 32-bit integer. */
  method Itoa(n: Int32, buf: array<char>) returns (len: nat)
    requires buf.Length >= 12
    modifies buf
    ensures len == |ItoaText(n)| < buf.Length && buf[..len] == ItoaText(n) && EndsAt(buf[..], len)
  {
    hide Digits, DigitOf, Reversed, Magnitude, Rest, ItoaText, Div10, Mod10;
    MagnitudeOf(n);
    var m: Int32 := if n < 0 then Negate(n) else n;
    ghost var text := Magnitude(m);
    FirstDigit(m);
    buf[0] := DigitOf(m);
    assert buf[..1] == [DigitOf(m)];
    var i := 1;
    m := Div10(m);
    while m > 0
      invariant 1 <= i <= 10
      invariant text == Rest(m) + Reversed(buf[..i])
    {
      DigitStep(text, m, buf[..i]);
      ghost var before := buf[..i];
      buf[i] := DigitOf(m);
      assert buf[..i + 1] == before + [DigitOf(m)];
      i := i + 1;
      m := Div10(m);
    }
    NoRest(m);
    if n < 0 {
      ReversedSnoc(buf[..i], '-');
      ghost var before := buf[..i];
      buf[i] := '-';
      assert buf[..i + 1] == before + ['-'];
      i := i + 1;
    }
    buf[i] := NUL;
    assert Reversed(buf[..i]) == ItoaText(n);
    ReversedKeeps(buf[..i]);
    ghost var was := buf[..];
    assert was[..i] == buf[..i] && was[i] == NUL;
    Reverse(buf, i);
    EndsAfter(buf[..], was, i, ItoaText(n));
    len := i;
  }

  lemma {:induction false} EndsAfter(s: seq<char>, was: seq<char>, k: nat, text: string)
    requires k < |s| == |was| && s[..k] == text && s[k..] == was[k..] && was[k] == NUL
    requires forall i :: 0 <= i < |text| ==> text[i] != NUL
    ensures EndsAt(s, k)
  {
    assert s[k] == s[k..][0] == was[k..][0];
    assert forall i :: 0 <= i < k ==> s[i] == text[i];
  }

  // ---- itoh --------------------------------------------------------------------------

  predicate HexPower(d: nat) {
    d in {0x1, 0x10, 0x100, 0x1000, 0x1_0000, 0x10_0000, 0x100_0000, 0x1000_0000}
  }

  lemma {:induction false} MulSplit(q: nat, a: nat, d: nat)
    ensures q * (16 * d) + a * d == (16 * q + a) * d
  {
  }

  predicate Steps(u: nat, d: nat)
    requires d > 0
  {
    && Quot(Rem(u, 16 * d), d) == Rem(Quot(u, d), 16) && Quot(Quot(u, d), 16) == Quot(u, 16 * d)
    && Rem(Rem(u, 16 * d), d) == Rem(u, d)
  }

  lemma {:induction false} HexParts(u: nat, d: nat, m: nat, q: nat, r: nat, a: nat, b: nat)
    requires m == 16 * d && u == q * m + r && r == a * d + b && r < m && b < d
    ensures Quot(u, d) == 16 * q + a && Rem(u, d) == b && Quot(16 * q + a, 16) == q && Rem(16 * q + a, 16) == a
  {
    hide Quot, Rem;
    if a >= 16 {
      MulMono(16, a, d);
      assert false;
    }
    MulSplit(q, a, d);
    QuotRemIs(u, d, 16 * q + a, b);
    QuotRemIs(16 * q + a, 16, q, a);
  }

  /** One turn of itoh's second loop, for any d. */
  lemma {:induction false} HexStep(u: nat, d: nat)
    requires d > 0
    ensures Steps(u, d)
  {
    hide Quot, Rem;
    var m := 16 * d;
    var q, r := Quot(u, m), Rem(u, m);
    QuotRem(u, m);
    QuotRem(r, d);
    HexParts(u, d, m, q, r, Quot(r, d), Rem(r, d));
  }

  /** The digits of the part of u at and above position 16 * d; none for zero. */
  ghost function Upper(u: nat, d: nat): string
    requires HexPower(d)
  {
    if u / (16 * d) == 0 then [] else Digits(u / (16 * d), 16)
  }

  lemma {:induction false} NextHexDigit(u: nat, d: nat)
    requires HexPower(d) && (u / d > 0 || d == 1)
    ensures Upper(u, d) + [DigitChar((u / d) % 16)] == Digits(u / d, 16)
  {
    HexStep(u, d);
  }

  /** State of the second loop: i is what is left of u below 16 * d. */
  ghost predicate HexLoop(u: nat, d: nat, i: nat) {
    HexPower(d) && i == u % (16 * d) && (u / d > 0 || d == 1)
  }

  lemma {:induction false} HexLoopStep(u: nat, d: nat, i: nat)
    requires HexLoop(u, d, i) && d >= 0x10
    ensures i / d == (u / d) % 16 < 16 && HexLoop(u, d / 0x10, i % d)
    ensures Upper(u, d) + [DigitChar(i / d)] == Upper(u, d / 0x10)
  {
    HexStep(u, d);
    NextHexDigit(u, d);
    assert 16 * (d / 0x10) == d && HexPower(d / 0x10);
    assert u / (d / 0x10) > 0 by { Larger(u, d); }
  }

  lemma {:induction false} HexLoopStart(u: nat, d: nat)
    requires HexPower(d) && u < 16 * d && (u / d > 0 || d == 1)
    ensures HexLoop(u, d, u) && Upper(u, d) == []
  {
    hide HexPower;
    SmallMod(u, 16 * d);
  }

  lemma {:induction false} SmallMod(u: nat, m: nat)
    requires u < m
    ensures u / m == 0 && u % m == u
  {
  }

  lemma {:induction false} Larger(u: nat, d: nat)
    requires HexPower(d) && d >= 0x10 && u / d > 0
    ensures u / (d / 0x10) > 0
  {
    assert u >= d >= d / 0x10;
  }

  lemma {:induction false} HexLoopEnd(u: nat, i: nat)
    requires HexLoop(u, 1, i)
    ensures i < 16 && Upper(u, 1) + [DigitChar(i)] == Digits(u, 16)
  {
    NextHexDigit(u, 1);
  }

  lemma {:induction false} UpperLength(u: nat, d: nat)
    requires HexPower(d) && u < 0x1_0000_0000 && d >= 0x10
    ensures |Upper(u, d)| <= 7
  {
    if u / (16 * d) > 0 {
      assert u / (16 * d) < 0x100_0000;
      assert Pow(16, 2) == 0x100 && Pow(16, 4) == 0x1_0000 && Pow(16, 6) == 0x100_0000;
      DigitsLength(u / (16 * d), 16, 6);
    }
  }

  lemma {:induction false} NoNulDigits(n: nat, b: nat)
    requires IsBase(b)
    ensures forall i :: 0 <= i < |Digits(n, b)| ==> Digits(n, b)[i] != NUL
  {
    DigitsCanonical(n, b);
    assert DigitVal(NUL) == 16;
  }

  /** itoh: the leading-zero-free upper-case hexadecimal numeral of n modulo 2^32. */
  method Itoh(n: Int32, buf: array<char>) returns (len: nat)
    requires buf.Length >= 9
    modifies buf
    ensures var u := if n < 0 then n + 0x1_0000_0000 else n;
      len == |Digits(u, 16)| < buf.Length && buf[..len] == Digits(u, 16) && EndsAt(buf[..], len)
  {
    hide Digits, DigitChar, Upper, HexLoop;
    var u: nat := if n < 0 then n + 0x1_0000_0000 else n;
    var d := 0x1000_0000;
    while u / d == 0 && d >= 0x10
      invariant HexPower(d) && u < 16 * d
    {
      d := d / 0x10;
    }
    var i := u;
    var p := 0;
    HexLoopStart(u, d);
    while d >= 0xF
      invariant HexPower(d) && HexLoop(u, d, i)
      invariant p <= 8 && buf[..p] == Upper(u, d)
    {
      HexLoopStep(u, d, i);
      UpperLength(u, d);
      ghost var before := buf[..p];
      buf[p] := DigitChar(i / d);
      assert buf[..p + 1] == before + [DigitChar(i / d)];
      p := p + 1;
      i := i % d;
      d := d / 0x10;
    }
    HexLoopEnd(u, i);
    HexLength(u);
    ghost var before := buf[..p];
    buf[p] := DigitChar(i);
    assert buf[..p + 1] == before + [DigitChar(i)];
    p := p + 1;
    buf[p] := NUL;
    NoNulDigits(u, 16);
    len := Strlen(buf, p);
  }

  // ---- atoi --------------------------------------------------------------------------

  lemma {:induction false} ValueEmpty()
    ensures Value([], 10) == 0
  {
  }

  lemma {:induction false} ValueSnoc(u: string, j: nat)
    requires j < |u| && IsDecimal(u[j]) && j <= DigitRun(u)
    ensures Value(u[..j + 1], 10) == Value(u[..j], 10) * 10 + (u[j] - '0') as int
    ensures j < DigitRun(u)
  {
    assert u[..j + 1][..j] == u[..j];
  }

  /** atoi. Signed overflow is undefined in C, so the digits must denote a value below 2^31. */
  method Atoi(s: array<char>, ghost end: nat) returns (r: int)
    requires EndsAt(s[..], end)
    requires var u := Unsigned(s[..end]); Value(u[..DigitRun(u)], 10) < 0x8000_0000
    ensures r == AtoiText(s[..end])
  {
    hide Value, DigitRun, DigitVal;
    var val, sign, k := 0, 1, 0;
    ValueEmpty();
    if s[k] == '-' {
      sign := -1;
      k := 1;
    }
    ghost var from := k;
    ghost var u := s[from..end];
    assert u == Unsigned(s[..end]);
    while '0' <= s[k] <= '9'
      invariant from <= k <= end && k - from <= DigitRun(u)
      invariant val == Value(u[..k - from], 10)
      decreases end - k
    {
      ghost var j := k - from;
      assert u[j] == s[k] && IsDecimal(u[j]);
      ValueSnoc(u, j);
      val := val * 10 + (s[k] - '0') as int;
      k := k + 1;
    }
    assert k - from == DigitRun(u);
    return sign * val;
  }
}
