/** The numeric conversions of kvprintf (system/printf.c): digits, sign, prefix and
    padding, and reading the result back. */
module Printf {
  import opened Arithmetic
  import opened Numerals

  /** A conversion with its flags; `padc` is '0' or a space. */
  datatype Format = Format(base: nat, sign: bool, upper: bool, ladjust: bool, sharp: bool, zero: bool, width: nat)

  predicate Supported(f: Format) {
    2 <= f.base <= 36
  }

  function PadChar(f: Format): char {
    if f.zero then '0' else ' '
  }

  /** The signed or unsigned value that the argument word stands for. */
  function Meaning(f: Format, num: nat): int {
    if f.sign && num >= 0x8000_0000 then num - WORD else num
  }

  function Magnitude(f: Format, num: nat): nat
    requires num < WORD
  {
    if Meaning(f, num) < 0 then -Meaning(f, num) else Meaning(f, num)
  }

  function Sign(f: Format, num: nat): string {
    if Meaning(f, num) < 0 then "-" else ""
  }

  function Prefix(f: Format, num: nat): string
    requires num < WORD
  {
    if f.sharp && Magnitude(f, num) != 0 then
      if f.base == 8 then "0" else if f.base == 16 then "0x" else ""
    else ""
  }

  function Body(f: Format, num: nat): string
    requires Supported(f) && num < WORD
  {
    Sign(f, num) + Prefix(f, num) + Numeral(Magnitude(f, num), f.base, f.upper)
  }

  function Repeat(c: char, n: int): (r: string)
    ensures |r| == if n > 0 then n else 0
    ensures forall k :: 0 <= k < |r| ==> r[k] == c
    decreases n
  {
    if n <= 0 then [] else [c] + Repeat(c, n - 1)
  }

  function Padding(f: Format, num: nat): string
    requires Supported(f) && num < WORD
  {
    Repeat(PadChar(f), f.width - |Body(f, num)|)
  }

  /** Where the padding goes: behind when left-adjusted, between prefix and digits
      when zero-padded, in front otherwise. */
  function Layout(f: Format, num: nat): string
    requires Supported(f) && num < WORD
  {
    var digits := Numeral(Magnitude(f, num), f.base, f.upper);
    if f.ladjust then Body(f, num) + Padding(f, num)
    else if f.zero then Sign(f, num) + Prefix(f, num) + Padding(f, num) + digits
    else Padding(f, num) + Body(f, num)
  }

  /** Exactly max(width, sign + prefix + digits) characters. */
  lemma LayoutLength(f: Format, num: nat)
    requires Supported(f) && num < WORD
    ensures |Layout(f, num)| == if |Body(f, num)| >= f.width then |Body(f, num)| else f.width
  {
  }

  /** The value is the word's, signed or not: equal to it modulo 2^32 and in range. */
  lemma MeaningIsValue(f: Format, num: nat)
    requires num < WORD
    ensures !f.sign ==> Meaning(f, num) == num
    ensures f.sign ==> -0x8000_0000 <= Meaning(f, num) < 0x8000_0000 && (Meaning(f, num) - num) % 0x1_0000_0000 == 0
  {
  }

  /** What is printed where: `s` characters of sign, `p` of prefix and `d` digits, with
      `w` characters of padding in front, between prefix and digits, or behind. */
  ghost predicate IsLaidOut(t: string, f: Format, num: nat, s: nat, p: nat, d: nat, w: nat)
    requires Supported(f) && num < WORD && s <= 1 && p <= 2
  {
    var gap := if !f.ladjust && f.zero then w else 0;
    var front := if !f.ladjust && !f.zero then w else 0;
    && |t| == s + p + d + w
    && (forall k :: 0 <= k < front || s + p <= k < s + p + gap || (f.ladjust && s + p + d <= k < |t|) ==>
          t[k] == if f.zero then '0' else ' ')
    && t[front..front + s] == "-"[..s]
    && t[front + s..front + s + p] == "0x"[..p]
    && t[front + s + p + gap..front + s + p + gap + d] == Numeral(Magnitude(f, num), f.base, f.upper)
  }

  /** Every conversion prints a minus sign exactly before a negative value; 0 or 0x
      exactly when asked, for a value other than zero in base 8 or 16; the digits; and
      enough zeros or spaces to fill the width. */
  lemma LayoutIsText(f: Format, num: nat, s: nat, p: nat, d: nat, w: nat)
    requires Supported(f) && num < WORD && d == |Numeral(Magnitude(f, num), f.base, f.upper)|
    requires s == if Meaning(f, num) < 0 then 1 else 0
    requires p == if !f.sharp || num == 0 then 0 else if f.base == 8 then 1 else if f.base == 16 then 2 else 0
    requires w == if s + p + d < f.width then f.width - (s + p + d) else 0
    ensures IsLaidOut(Layout(f, num), f, num, s, p, d, w)
  {
    var sign, prefix := Sign(f, num), Prefix(f, num);
    var pad, digits := Padding(f, num), Numeral(Magnitude(f, num), f.base, f.upper);
    assert sign == "-"[..s] && prefix == "0x"[..p] && |pad| == w;
    var front, gap, behind := if !f.ladjust && !f.zero then pad else "", if !f.ladjust && f.zero then pad else "",
                              if f.ladjust then pad else "";
    LayoutInOrder(f, num, front, gap, behind);
    PartsAreLaidOut(Layout(f, num), f, num, s, p, d, w, front, gap, behind);
  }

  lemma LayoutInOrder(f: Format, num: nat, front: string, gap: string, behind: string)
    requires Supported(f) && num < WORD
    requires front == if !f.ladjust && !f.zero then Padding(f, num) else ""
    requires gap == if !f.ladjust && f.zero then Padding(f, num) else ""
    requires behind == if f.ladjust then Padding(f, num) else ""
    ensures Layout(f, num) == front + Sign(f, num) + Prefix(f, num) + gap
                              + Numeral(Magnitude(f, num), f.base, f.upper) + behind
  {
  }

  lemma PartsAreLaidOut(t: string, f: Format, num: nat, s: nat, p: nat, d: nat, w: nat,
                        front: string, gap: string, behind: string)
    requires Supported(f) && num < WORD && s <= 1 && p <= 2
    requires |front| == if !f.ladjust && !f.zero then w else 0
    requires |gap| == if !f.ladjust && f.zero then w else 0
    requires |behind| == if f.ladjust then w else 0
    requires d == |Numeral(Magnitude(f, num), f.base, f.upper)|
    requires t == front + "-"[..s] + "0x"[..p] + gap + Numeral(Magnitude(f, num), f.base, f.upper) + behind
    requires forall k :: 0 <= k < |front| ==> front[k] == PadChar(f)
    requires forall k :: 0 <= k < |gap| ==> gap[k] == PadChar(f)
    requires forall k :: 0 <= k < |behind| ==> behind[k] == PadChar(f)
    ensures IsLaidOut(t, f, num, s, p, d, w)
  {
    Segments(t, front, "-"[..s], "0x"[..p], gap, Numeral(Magnitude(f, num), f.base, f.upper), behind);
    PaddingAt(t, 0, front, PadChar(f));
    PaddingAt(t, |front| + s + p, gap, PadChar(f));
    PaddingAt(t, |t| - |behind|, behind, PadChar(f));
  }

  lemma PaddingAt(t: string, at: nat, part: string, c: char)
    requires at + |part| <= |t| && t[at..at + |part|] == part
    requires forall k :: 0 <= k < |part| ==> part[k] == c
    ensures forall k :: at <= k < at + |part| ==> t[k] == c
  {
    forall k | at <= k < at + |part| ensures t[k] == c {
      assert t[k] == part[k - at];
    }
  }

  lemma Segments(t: string, a: string, b: string, c: string, d: string, e: string, f: string)
    requires t == a + b + c + d + e + f
    ensures |t| == |a| + |b| + |c| + |d| + |e| + |f|
    ensures t[..|a|] == a
    ensures t[|a|..|a| + |b|] == b
    ensures t[|a| + |b|..|a| + |b| + |c|] == c
    ensures t[|a| + |b| + |c|..|a| + |b| + |c| + |d|] == d
    ensures t[|a| + |b| + |c| + |d|..|a| + |b| + |c| + |d| + |e|] == e
    ensures t[|a| + |b| + |c| + |d| + |e|..] == f
  {
  }

  /** The loop `while (width--)`, which leaves -1 behind. */
  method Emit(text: string, padc: char, width: int) returns (out: string, left: int)
    requires width > 0
    ensures out == text + Repeat(padc, width) && left == -1
  {
    out, left := text, width;
    while left > 0
      invariant 0 <= left <= width
      invariant out + Repeat(padc, left) == text + Repeat(padc, width)
    {
      assert out + Repeat(padc, left) == (out + [padc]) + Repeat(padc, left - 1);
      out := out + [padc];
      left := left - 1;
    }
    left := left - 1;
  }

  /** Digits out of the buffer that ksprintn filled, last written first. */
  method EmitDigits(nbuf: array<char>, len: nat, text: string, ghost digits: string) returns (out: string)
    requires len == |digits| < nbuf.Length
    requires forall k :: 1 <= k <= len ==> nbuf[k] == digits[len - k]
    ensures out == text + digits
  {
    out := text;
    var p := len;
    while p > 0
      invariant 0 <= p <= len
      invariant out == text + digits[..len - p]
    {
      assert digits[..len - p + 1] == digits[..len - p] + [digits[len - p]];
      out := out + [nbuf[p]];
      p := p - 1;
    }
    assert digits[..len] == digits;
  }

  /** `if (... && width && (width -= tmp) > 0) while (width--)`: the test reduces
      `width` even when nothing is emitted. */
  method Pad(text: string, f: Format, applies: bool, width: int, tmp: nat) returns (out: string, left: int)
    ensures !applies || width == 0 ==> out == text && left == width
    ensures applies && width != 0 ==>
              out == text + Repeat(PadChar(f), width - tmp) && left == if width - tmp > 0 then -1 else width - tmp
  {
    out, left := text, width;
    if applies && left != 0 {
      left := left - tmp;
      if left > 0 {
        out, left := Emit(out, PadChar(f), left);
      } else {
        assert text + "" == text;
      }
    }
  }

  /** Length of sign, prefix and digits, as the code adds it up. */
  method Measure(f: Format, ghost num: nat, n: nat, neg: bool, len: nat) returns (tmp: nat)
    requires Supported(f) && num < WORD && n == Magnitude(f, num) && neg == (Meaning(f, num) < 0)
    requires len == |Numeral(n, f.base, f.upper)|
    ensures tmp == |Body(f, num)|
  {
    tmp := len;
    if f.sharp && n != 0 {
      if f.base == 8 {
        tmp := tmp + 1;
      } else if f.base == 16 {
        tmp := tmp + 2;
      }
    }
    if neg {
      tmp := tmp + 1;
    }
  }

  method EmitSignAndPrefix(text: string, f: Format, ghost num: nat, n: nat, neg: bool) returns (out: string)
    requires num < WORD && n == Magnitude(f, num) && neg == (Meaning(f, num) < 0)
    ensures out == text + (Sign(f, num) + Prefix(f, num))
  {
    out := text;
    if neg {
      out := out + "-";
    }
    if f.sharp && n != 0 {
      if f.base == 8 {
        out := out + "0";
      } else if f.base == 16 {
        out := out + "0" + "x";
      }
    }
  }

  /** The sign test of the code: a negative word is negated in 32 bits. */
  method Negate(f: Format, num: nat) returns (n: nat, neg: bool)
    requires num < WORD
    ensures n == Magnitude(f, num) < WORD && neg == (Meaning(f, num) < 0)
  {
    neg, n := false, num;
    if f.sign && n >= 0x8000_0000 {
      neg := true;
      n := WORD - n;
    }
  }

  /** The code from `number:` on, with its three uses of `width`, lays the number out
      as described. */
  method FormatNumber(f: Format, num: nat) returns (out: string)
    requires Supported(f) && num < WORD
    ensures out == Layout(f, num)
  {
    var n, neg := Negate(f, num);
    var nbuf := new char[MAXNBUF](_ => '\0');
    var len := Ksprintn(nbuf, n, f.base, f.upper);
    var tmp := Measure(f, num, n, neg, len);
    ghost var digits := Numeral(n, f.base, f.upper);

    var width: int;
    out, width := EmitFront(f, num, n, neg, tmp);
    out := EmitDigits(nbuf, len, out, digits);
    LayoutIsFrontAndDigits(f, num);
    if f.width == 0 {
      assert Padding(f, num) == "" && out + "" == out;
    }
    out, width := Pad(out, f, f.ladjust, width, tmp);
  }

  lemma LayoutIsFrontAndDigits(f: Format, num: nat)
    requires Supported(f) && num < WORD
    ensures var text := Front(f, num) + Numeral(Magnitude(f, num), f.base, f.upper);
            Layout(f, num) == if f.ladjust then text + Padding(f, num) else text
  {
    var head, digits := Sign(f, num) + Prefix(f, num), Numeral(Magnitude(f, num), f.base, f.upper);
    if f.ladjust {
      assert Front(f, num) == head;
    } else if f.zero {
      assert Front(f, num) == head + Padding(f, num);
    } else {
      assert Front(f, num) == Padding(f, num) + head;
      assert Padding(f, num) + (head + digits) == Padding(f, num) + head + digits;
    }
  }

  method EmitFront(f: Format, ghost num: nat, n: nat, neg: bool, tmp: nat) returns (out: string, width: int)
    requires Supported(f) && num < WORD && n == Magnitude(f, num) && neg == (Meaning(f, num) < 0)
    requires tmp == |Body(f, num)|
    ensures out == Front(f, num)
    ensures f.ladjust ==> width == f.width
  {
    width := f.width;
    out, width := Pad("", f, !f.ladjust && !f.zero, width, tmp);
    out := EmitSignAndPrefix(out, f, num, n, neg);
    out, width := Pad(out, f, !f.ladjust, width, tmp);
  }

  /** Everything printed before the digits. */
  ghost function Front(f: Format, num: nat): string
    requires Supported(f) && num < WORD
  {
    (if !f.ladjust && !f.zero then Padding(f, num) else "")
    + (Sign(f, num) + Prefix(f, num))
    + (if !f.ladjust && f.zero then Padding(f, num) else "")
  }

  // ----- reading back

  function SkipSpaces(t: string): string {
    if t != [] && t[0] == ' ' then SkipSpaces(t[1..]) else t
  }

  function SkipPrefix(t: string, base: nat): string {
    if base == 16 && |t| >= 2 && t[0] == '0' && t[1] == 'x' then t[2..] else t
  }

  function ReadUnsigned(t: string, base: nat): nat {
    Read(SkipPrefix(t, base), base, 0)
  }

  function ReadSigned(t: string, base: nat): int {
    if t != [] && t[0] == '-' then 0 - ReadUnsigned(t[1..], base) else ReadUnsigned(t, base)
  }

  /** Leading spaces, a sign, a hexadecimal prefix, then digits. */
  function ReadBack(t: string, base: nat): int {
    ReadSigned(SkipSpaces(t), base)
  }

  lemma SignIsRead(negative: bool, t: string, base: nat)
    requires t != [] && t[0] != '-'
    ensures ReadSigned((if negative then "-" else "") + t, base)
         == if negative then 0 - ReadUnsigned(t, base) else ReadUnsigned(t, base)
  {
    if negative {
      assert ("-" + t)[1..] == t;
    } else {
      assert "" + t == t;
    }
  }

  lemma {:induction false} SkipPadding(n: int, t: string)
    requires t != [] && t[0] != ' '
    ensures SkipSpaces(Repeat(' ', n) + t) == t
    decreases n
  {
    if n > 0 {
      assert (Repeat(' ', n) + t)[1..] == Repeat(' ', n - 1) + t;
      SkipPadding(n - 1, t);
    } else {
      assert Repeat(' ', n) + t == t;
    }
  }

  lemma {:induction false} ReadLeadingZeros(n: int, t: string, base: nat)
    requires base >= 2
    ensures Read(Repeat('0', n) + t, base, 0) == Read(t, base, 0)
    decreases n
  {
    if n > 0 {
      assert Repeat('0', n) + t == ['0'] + (Repeat('0', n - 1) + t);
      ReadDigit('0', Repeat('0', n - 1) + t, base, 0);
      ReadLeadingZeros(n - 1, t, base);
    } else {
      assert Repeat('0', n) + t == t;
    }
  }

  /** Trailing zeros multiply, so they are harmless only after zero. */
  lemma {:induction false} ReadTrailingZeros(n: int, base: nat, acc: nat)
    requires base >= 2
    ensures Read(Repeat('0', n), base, acc) >= acc
    ensures Read(Repeat('0', n), base, acc) == acc <==> n <= 0 || acc == 0
    decreases n
  {
    if n > 0 {
      assert Repeat('0', n) == ['0'] + Repeat('0', n - 1);
      ReadDigit('0', Repeat('0', n - 1), base, acc);
      ReadTrailingZeros(n - 1, base, Times(acc, base));
      TimesGrows(acc, base);
    }
  }

  lemma {:induction false} TimesGrows(a: nat, b: nat)
    requires b >= 2
    ensures Times(a, b) >= 2 * a
  {
    if a > 0 {
      TimesGrows(a - 1, b);
    }
  }

  /** What the digits read as once sign and prefix are off: the digits of the number,
      with the padding where the format puts it. */
  function Tail(f: Format, num: nat): string
    requires Supported(f) && num < WORD
  {
    var digits := Numeral(Magnitude(f, num), f.base, f.upper);
    if f.ladjust then digits + Padding(f, num) else if f.zero then Padding(f, num) + digits else digits
  }

  lemma TailReads(f: Format, num: nat)
    requires Supported(f) && num < WORD
    ensures Read(Tail(f, num), f.base, 0) == Magnitude(f, num)
       <==> !(f.ladjust && f.zero && f.width > |Body(f, num)| && num != 0)
  {
    var n, pad := Magnitude(f, num), f.width - |Body(f, num)|;
    var digits := Numeral(n, f.base, f.upper);
    ReadNumeral(n, f.base, f.upper, []);
    assert digits + [] == digits && Read([], f.base, n) == n;
    if f.ladjust {
      ReadNumeral(n, f.base, f.upper, Padding(f, num));
      if f.zero {
        ReadTrailingZeros(pad, f.base, n);
      } else if pad > 0 {
        assert Padding(f, num)[0] == ' ';
      }
    } else if f.zero {
      ReadLeadingZeros(pad, digits, f.base);
    }
  }

  lemma TailStarts(f: Format, num: nat)
    requires Supported(f) && num < WORD
    ensures Tail(f, num) != [] && Tail(f, num)[0] != ' ' && Tail(f, num)[0] != '-'
    ensures f.base == 16 && |Tail(f, num)| > 1 ==> Tail(f, num)[1] != 'x'
  {
    var n := Magnitude(f, num);
    var digits := Numeral(n, f.base, f.upper);
    NumeralIsDigits(n, f.base, f.upper);
    assert DigitOf(digits[0]) < f.base && (|digits| > 1 ==> DigitOf(digits[1]) < f.base);
  }

  /** In the printed text, sign and prefix stand where ReadBack looks for them. */
  lemma LayoutParts(f: Format, num: nat)
    requires Supported(f) && num < WORD
    ensures SkipSpaces(Layout(f, num)) == Sign(f, num) + (Prefix(f, num) + Tail(f, num))
  {
    var pad, sign, prefix, tail := Padding(f, num), Sign(f, num), Prefix(f, num), Tail(f, num);
    var digits, t := Numeral(Magnitude(f, num), f.base, f.upper), sign + (prefix + tail);
    TailStarts(f, num);
    Regroup(sign, prefix, digits, pad);
    if !f.ladjust && !f.zero {
      assert Layout(f, num) == pad + t;
      SkipPadding(f.width - |Body(f, num)|, t);
    } else {
      assert Layout(f, num) == t;
      SkipNothing(t);
    }
  }

  lemma SkipNothing(t: string)
    requires t != [] && t[0] != ' '
    ensures SkipSpaces(t) == t
  {
  }

  lemma Regroup(a: string, b: string, c: string, d: string)
    ensures a + b + c == a + (b + c)
    ensures a + b + c + d == a + (b + (c + d))
    ensures a + b + d + c == a + (b + (d + c))
  {
  }

  /** The text reads back to the value printed if and only if it was not left-adjusted
      and zero-padded with a nonzero value and room to pad. */
  lemma ReadsBackIff(f: Format, num: nat)
    requires Supported(f) && num < WORD
    ensures ReadBack(Layout(f, num), f.base) == Meaning(f, num)
       <==> !(f.ladjust && f.zero && f.width > |Body(f, num)| && num != 0)
  {
    TailReads(f, num);
    ReadBackIsTail(f, num);
  }

  lemma ReadBackIsTail(f: Format, num: nat)
    requires Supported(f) && num < WORD
    ensures var v := Read(Tail(f, num), f.base, 0);
            ReadBack(Layout(f, num), f.base) == if Meaning(f, num) < 0 then 0 - v else v
  {
    LayoutParts(f, num);
    PrefixReads(f, num);
    SignIsRead(Meaning(f, num) < 0, Prefix(f, num) + Tail(f, num), f.base);
  }

  lemma PrefixReads(f: Format, num: nat)
    requires Supported(f) && num < WORD
    ensures ReadUnsigned(Prefix(f, num) + Tail(f, num), f.base) == Read(Tail(f, num), f.base, 0)
    ensures Prefix(f, num) + Tail(f, num) != [] && (Prefix(f, num) + Tail(f, num))[0] != '-'
  {
    TailStarts(f, num);
    var tail, p := Tail(f, num), Prefix(f, num);
    if p == "0" {
      assert p + tail == ['0'] + tail;
      ReadDigit('0', tail, f.base, 0);
    } else if p == "0x" {
      assert (p + tail)[2..] == tail;
    } else {
      assert p + tail == tail;
    }
  }

  // ----- putbyte and putu32

  function HexChar(d: nat): char
    requires d < 16
  {
    if d > 9 then 'A' + (d - 10) as char else '0' + d as char
  }

  function ByteText(b: nat): string
    requires b < 256
  {
    [HexChar(b / 16), HexChar(b % 16)]
  }

  method PutByte(b: nat) returns (out: string)
    requires b < 256
    ensures out == ByteText(b)
  {
    var nib1, nib2 := b % 16, b / 16;
    if nib2 > 9 {
      out := ['A' + (nib2 - 10) as char];
    } else {
      out := ['0' + nib2 as char];
    }
    if nib1 > 9 {
      out := out + ['A' + (nib1 - 10) as char];
    } else {
      out := out + ['0' + nib1 as char];
    }
  }

  method PutU32(val: nat) returns (out: string)
    requires val < WORD
    ensures out == Fixed(val, 8)
  {
    var a := PutByte((val / 0x100_0000) % 256);
    var b := PutByte((val / 0x1_0000) % 256);
    var c := PutByte((val / 0x100) % 256);
    var d := PutByte(val % 256);
    out := a + b + c + d;
    FixedWord(val);
  }

  lemma FixedWord(n: nat)
    ensures Fixed(n, 8) == ByteText((n / 0x100_0000) % 256) + ByteText((n / 0x1_0000) % 256)
                           + ByteText((n / 0x100) % 256) + ByteText(n % 256)
  {
    Shifts(n);
    FixedFour(n, n / 0x100, n / 0x1_0000, n / 0x100_0000);
  }

  lemma Shifts(n: nat)
    ensures n / 0x1_0000 == (n / 0x100) / 256 && n / 0x100_0000 == (n / 0x1_0000) / 256
  {
  }

  lemma FixedFour(n: nat, n1: nat, n2: nat, n3: nat)
    requires n1 == n / 256 && n2 == n1 / 256 && n3 == n2 / 256
    ensures Fixed(n, 8) == ByteText(n3 % 256) + ByteText(n2 % 256) + ByteText(n1 % 256) + ByteText(n % 256)
  {
    FixedByByte(n, 8, n1);
    FixedByByte(n1, 6, n2);
    FixedByByte(n2, 4, n3);
    FixedByByte(n3, 2, n3 / 256);
    assert Fixed(n3 / 256, 0) == "";
  }

  /** The last `k` hexadecimal digits of `n`. */
  function Fixed(n: nat, k: nat): string {
    if k == 0 then "" else Fixed(n / 16, k - 1) + [HexChar(n % 16)]
  }

  lemma FixedByByte(n: nat, k: nat, rest: nat)
    requires k >= 2 && rest == n / 256
    ensures Fixed(n, k) == Fixed(rest, k - 2) + ByteText(n % 256)
  {
    Nibbles(n);
    assert Fixed(n, k) == Fixed(n / 16, k - 1) + [HexChar(n % 16)];
    assert Fixed(n / 16, k - 1) == Fixed(rest, k - 2) + [HexChar((n / 16) % 16)];
  }

  lemma Nibbles(n: nat)
    ensures n / 16 / 16 == n / 256 && (n % 256) / 16 == (n / 16) % 16 && (n % 256) % 16 == n % 16
  {
  }

  lemma {:induction false} PaddedIsFixed(n: nat, k: nat)
    requires |Numeral(n, 16, true)| <= k
    ensures Repeat('0', k - |Numeral(n, 16, true)|) + Numeral(n, 16, true) == Fixed(n, k)
    decreases k
  {
    QuotientIsDivision(n, 16);
    var t := Numeral(n, 16, true);
    if n >= 16 {
      PaddedIsFixed(n / 16, k - 1);
    } else {
      ZerosAreFixed(k - 1);
      assert n / 16 == 0 && t == [HexChar(n)];
    }
  }

  lemma {:induction false} ZerosAreFixed(k: nat)
    ensures Fixed(0, k) == Repeat('0', k)
  {
    if k > 0 {
      ZerosAreFixed(k - 1);
      assert Repeat('0', k - 1) + ['0'] == ['0'] + Repeat('0', k - 1);
    }
  }

  /** "%08X" and putu32 print the same eight characters. */
  lemma HexAgrees(n: nat)
    requires n < WORD
    ensures Layout(Format(16, false, true, false, false, true, 8), n) == Fixed(n, 8)
  {
    assert Pow16(8) == 0x1_0000_0000;
    HexLength(n, 8);
    PaddedIsFixed(n, 8);
    HexLayout(n);
  }

  lemma HexLayout(n: nat)
    requires n < WORD
    ensures var t := Numeral(n, 16, true);
            Layout(Format(16, false, true, false, false, true, 8), n) == Repeat('0', 8 - |t|) + t
  {
    var f := Format(16, false, true, false, false, true, 8);
    assert Body(f, n) == Numeral(n, 16, true);
  }

  lemma {:induction false} HexLength(n: nat, k: nat)
    requires k >= 1 && n < Pow16(k)
    ensures |Numeral(n, 16, true)| <= k
    decreases k
  {
    QuotientIsDivision(n, 16);
    if n >= 16 {
      HexLength(n / 16, k - 1);
    }
  }

  function Pow16(k: nat): nat {
    if k == 0 then 1 else 16 * Pow16(k - 1)
  }
}
