/** Numerals as system/printf.c and system/stdio.c write and read them. */
module Numerals {
  import opened Arithmetic

  const WORD := 0x1_0000_0000
  const MAXNBUF := 33

  function DigitChar(d: nat, upper: bool): char
    requires d < 36
  {
    if d < 10 then '0' + d as char
    else if upper then 'A' + (d - 10) as char
    else 'a' + (d - 10) as char
  }

  /** The digits are those of the table the code has, or its capitals. */
  lemma DigitsAreTheTable(d: nat)
    requires d < 36
    ensures DigitChar(d, false) == "0123456789abcdefghijklmnopqrstuvwxyz"[d]
    ensures DigitChar(d, true) == "0123456789ABCDEFGHIJKLMNOPQRSTUVWXYZ"[d]
  {
  }

  /** What a character counts as a digit, or 36. */
  function DigitOf(c: char): nat {
    if '0' <= c <= '9' then (c - '0') as nat
    else if 'a' <= c <= 'z' then (c - 'a') as nat + 10
    else if 'A' <= c <= 'Z' then (c - 'A') as nat + 10
    else 36
  }

  lemma DigitRoundTrip(d: nat, upper: bool)
    requires d < 36
    ensures DigitOf(DigitChar(d, upper)) == d
  {
  }

  /** The numeral of `n`: most significant digit first, no leading zeros. */
  function Numeral(n: nat, base: nat, upper: bool): (t: string)
    requires 2 <= base <= 36
    ensures |t| >= 1
    decreases n
  {
    (if n < base then [] else Numeral(Quotient(n, base), base, upper)) + [DigitChar(Remainder(n, base), upper)]
  }

  /** The number read from the digits at the front of `t`, continuing from `acc`. */
  function Read(t: string, base: nat, acc: nat): nat {
    if t != [] && DigitOf(t[0]) < base then Read(t[1..], base, Times(acc, base) + DigitOf(t[0])) else acc
  }

  predicate AllDigits(t: string, base: nat) {
    forall k :: 0 <= k < |t| ==> DigitOf(t[k]) < base
  }

  /** Decimal digits and letters of one case. */
  predicate IsInCase(t: string, upper: bool) {
    forall k :: 0 <= k < |t| ==> '0' <= t[k] <= '9' || if upper then 'A' <= t[k] <= 'Z' else 'a' <= t[k] <= 'z'
  }

  lemma {:induction false} NumeralIsDigits(n: nat, base: nat, upper: bool)
    requires 2 <= base <= 36
    ensures AllDigits(Numeral(n, base, upper), base) && IsInCase(Numeral(n, base, upper), upper)
    ensures n > 0 ==> Numeral(n, base, upper)[0] != '0'
    ensures n == 0 ==> Numeral(n, base, upper) == "0"
    decreases n
  {
    DigitRoundTrip(Remainder(n, base), upper);
    if n >= base {
      NumeralIsDigits(Quotient(n, base), base, upper);
    }
  }

  /** Reading a numeral gives back the number, and reading goes on from there. */
  lemma {:induction false} ReadNumeral(n: nat, base: nat, upper: bool, rest: string)
    requires 2 <= base <= 36
    ensures Read(Numeral(n, base, upper) + rest, base, 0) == Read(rest, base, n)
    decreases n
  {
    var c := DigitChar(Remainder(n, base), upper);
    DigitRoundTrip(Remainder(n, base), upper);
    Division(n, base);
    if n >= base {
      ReadNumeral(Quotient(n, base), base, upper, [c] + rest);
      assert Numeral(n, base, upper) + rest == Numeral(Quotient(n, base), base, upper) + ([c] + rest);
      ReadDigit(c, rest, base, Quotient(n, base));
    } else {
      assert Numeral(n, base, upper) + rest == [c] + rest;
      ReadDigit(c, rest, base, 0);
    }
  }

  lemma ReadDigit(c: char, rest: string, base: nat, acc: nat)
    requires DigitOf(c) < base
    ensures Read([c] + rest, base, acc) == Read(rest, base, Times(acc, base) + DigitOf(c))
  {
  }

  lemma {:induction false} ReadOneMore(t: string, c: char, base: nat, acc: nat)
    requires AllDigits(t, base) && DigitOf(c) < base
    ensures Read(t + [c], base, acc) == Times(Read(t, base, acc), base) + DigitOf(c)
    decreases |t|
  {
    if t == [] {
      assert t + [c] == [c] && [c][1..] == [];
    } else {
      assert (t + [c])[1..] == t[1..] + [c];
      ReadOneMore(t[1..], c, base, Times(acc, base) + DigitOf(t[0]));
    }
  }

  /** A digit string in one case without leading zeros is the numeral of what it
      reads as: numerals are canonical. */
  lemma NumeralIsCanonical(t: string, base: nat, upper: bool)
    requires 2 <= base <= 36 && t != [] && AllDigits(t, base) && IsInCase(t, upper)
    requires |t| > 1 ==> t[0] != '0'
    ensures Numeral(Read(t, base, 0), base, upper) == t
  {
    forall k | 0 <= k < |t| ensures t[k] == DigitChar(DigitOf(t[k]), upper) {
      CharOfDigit(t[k], upper);
    }
    DigitsAreCanonical(t, base, upper);
  }

  lemma CharOfDigit(c: char, upper: bool)
    requires '0' <= c <= '9' || if upper then 'A' <= c <= 'Z' else 'a' <= c <= 'z'
    ensures DigitOf(c) < 36 && DigitChar(DigitOf(c), upper) == c
  {
  }

  lemma {:induction false} DigitsAreCanonical(t: string, base: nat, upper: bool)
    requires 2 <= base <= 36 && t != [] && AllDigits(t, base)
    requires forall k :: 0 <= k < |t| ==> t[k] == DigitChar(DigitOf(t[k]), upper)
    requires |t| > 1 ==> t[0] != '0'
    ensures Numeral(Read(t, base, 0), base, upper) == t
    ensures t[0] != '0' ==> Read(t, base, 0) > 0
    decreases |t|
  {
    var front, c := t[..|t| - 1], t[|t| - 1];
    assert t == front + [c];
    ReadOneMore(front, c, base, 0);
    if front == [] {
      assert Read(front, base, 0) == 0 && Times(0, base) == 0;
      assert t[0] != '0' ==> DigitOf(t[0]) != 0;
    } else {
      DigitsAreCanonical(front, base, upper);
      Recompose(Read(front, base, 0), DigitOf(c), base);
      Multiply(1, Read(front, base, 0), base);
      assert Times(1, base) == Times(0, base) + base;
    }
  }

  function Pow2(k: nat): nat {
    if k == 0 then 1 else 2 * Pow2(k - 1)
  }

  lemma {:induction false} NumeralLength(n: nat, base: nat, upper: bool, k: nat)
    requires 2 <= base <= 36 && n < Pow2(k) && k >= 1
    ensures |Numeral(n, base, upper)| <= k
    decreases k
  {
    if n >= base {
      NumeralLength(Quotient(n, base), base, upper, k - 1);
    }
  }

  lemma WordNumeralFits(n: nat, base: nat, upper: bool)
    requires 2 <= base <= 36 && n < WORD
    ensures |Numeral(n, base, upper)| + 1 <= MAXNBUF
  {
    assert Pow2(8) == 256;
    assert Pow2(16) == 65536;
    assert Pow2(24) == 0x100_0000;
    assert Pow2(32) == WORD;
    NumeralLength(n, base, upper, 32);
  }

  /** ksprintn: fills `nbuf` with the numeral backwards, after a NUL, and returns its
      length. The buffer is long enough for every word and base. */
  method Ksprintn(nbuf: array<char>, num: nat, base: nat, upper: bool) returns (len: nat)
    requires nbuf.Length >= MAXNBUF && num < WORD && 2 <= base <= 36
    modifies nbuf
    ensures len == |Numeral(num, base, upper)| < nbuf.Length
    ensures nbuf[0] == '\0'
    ensures forall k :: 1 <= k <= len ==> nbuf[k] == Numeral(num, base, upper)[len - k]
  {
    ghost var t := Numeral(num, base, upper);
    WordNumeralFits(num, base, upper);
    var p, n: nat := 0, num;
    nbuf[p] := '\0';
    var more := true;
    while more
      invariant 0 <= p <= |t|
      invariant nbuf[0] == '\0'
      invariant forall k :: 1 <= k <= p ==> nbuf[k] == t[|t| - k]
      invariant if more then p < |t| && t[..|t| - p] == Numeral(n, base, upper) else p == |t|
      decreases more, n
    {
      ghost var front := Numeral(n, base, upper);
      assert front[|front| - 1] == t[|t| - p - 1];
      QuotientIsDivision(n, base);
      p := p + 1;
      nbuf[p] := DigitChar(n % base, upper);
      assert n >= base ==> front[..|front| - 1] == Numeral(Quotient(n, base), base, upper);
      n := n / base;
      more := n != 0;
    }
    return p;
  }

  // ----- atoi

  /** A value as a 32-bit int keeps it. */
  function Wrapped(x: int): int {
    (x + 0x8000_0000) % WORD - 0x8000_0000
  }

  function AtoiFrom(t: string, i: int): int
    decreases |t|
  {
    if t == [] then i else AtoiFrom(t[1..], Wrapped(i * 10 + (t[0] as int - '0' as int)))
  }

  /** atoi of the text up to its terminating NUL. */
  method Atoi(a: string) returns (i: int)
    requires exists k :: 0 <= k < |a| && a[k] == '\0'
    ensures exists k :: 0 <= k < |a| && a[k] == '\0' && '\0' !in a[..k] && i == AtoiFrom(a[..k], 0)
  {
    i := 0;
    var p := 0;
    ghost var end :| 0 <= end < |a| && a[end] == '\0';
    while a[p] != '\0'
      invariant 0 <= p <= end && '\0' !in a[..p]
      invariant forall n :: p <= n <= |a| ==> AtoiFrom(a[..n], 0) == AtoiFrom(a[p..n], i)
      decreases |a| - p
    {
      forall n | p + 1 <= n <= |a|
        ensures AtoiFrom(a[p..n], i) == AtoiFrom(a[p + 1..n], Wrapped(i * 10 + (a[p] as int - '0' as int)))
      {
        assert a[p..n][1..] == a[p + 1..n];
      }
      i := Wrapped(i * 10 + (a[p] as int - '0' as int));
      p := p + 1;
    }
    assert a[p..p] == [];
  }

  /** One more character, digit or not: ten times as much, plus its distance from '0',
      kept in 32 bits. */
  lemma {:induction false} AtoiOneMore(t: string, c: char, i: int)
    ensures AtoiFrom([], i) == i
    ensures var n := AtoiFrom(t + [c], i);
            && -0x8000_0000 <= n < 0x8000_0000
            && (n - (10 * AtoiFrom(t, i) + (c as int - 48))) % 0x1_0000_0000 == 0
    decreases |t|
  {
    if t == [] {
      assert t + [c] == [c] && [c][1..] == [];
    } else {
      assert (t + [c])[1..] == t[1..] + [c];
      AtoiOneMore(t[1..], c, Wrapped(i * 10 + (t[0] as int - '0' as int)));
    }
  }

  lemma WrapAbsorbs(x: int, d: int)
    ensures Wrapped(Wrapped(x) * 10 + d) == Wrapped(x * 10 + d)
  {
  }

  lemma {:induction false} AtoiReads(t: string, acc: nat)
    requires forall k :: 0 <= k < |t| ==> '0' <= t[k] <= '9'
    ensures AtoiFrom(t, Wrapped(acc)) == Wrapped(Read(t, 10, acc))
    decreases |t|
  {
    if t != [] {
      TimesIsProduct(acc, 10);
      WrapAbsorbs(acc, DigitOf(t[0]));
      AtoiReads(t[1..], Times(acc, 10) + DigitOf(t[0]));
    }
  }

  /** atoi gives back a printed unsigned number if and only if it fits an int. */
  lemma AtoiOfDecimal(n: nat, upper: bool)
    requires n < WORD
    ensures AtoiFrom(Numeral(n, 10, upper), 0) == n <==> n < 0x8000_0000
    ensures AtoiFrom(Numeral(n, 10, upper), 0) == Wrapped(n)
  {
    var t := Numeral(n, 10, upper);
    DecimalDigits(n, upper, t);
    AtoiReads(t, 0);
    NumeralReads(n, upper, t);
  }

  lemma DecimalDigits(n: nat, upper: bool, t: string)
    requires t == Numeral(n, 10, upper)
    ensures forall k :: 0 <= k < |t| ==> '0' <= t[k] <= '9'
  {
    NumeralIsDigits(n, 10, upper);
    forall k | 0 <= k < |t| ensures '0' <= t[k] <= '9' {
      assert DigitOf(t[k]) < 10;
    }
  }

  lemma NumeralReads(n: nat, upper: bool, t: string)
    requires t == Numeral(n, 10, upper)
    ensures Read(t, 10, 0) == n
  {
    ReadNumeral(n, 10, upper, []);
    assert t + [] == t;
  }
}
