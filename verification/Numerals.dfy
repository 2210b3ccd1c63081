/** Printing numbers (printnum in lab8/libs/printfmt.c) and reading them back (strtol in lab8/libs/string.c). */
module Numerals {
  import opened CInts

  // ---------- printing ----------

  function DigitChar(d: nat): char
    requires d < 16
  {
    "0123456789abcdef"[d]
  }

  /** The digits of n, most significant first. */
  function Digits(n: nat, base: nat): (s: string)
    requires 2 <= base <= 16
    ensures |s| >= 1
  {
    if n < base then [DigitChar(n)] else Digits(n / base, base) + [DigitChar(n % base)]
  }

  function Padding(n: int, c: char): (s: string)
    ensures |s| == if n <= 0 then 0 else n
    ensures forall i | 0 <= i < |s| :: s[i] == c
  {
    if n <= 0 then "" else seq(n, _ => c)
  }

  /** How many characters fill a field of the given width before len others; none if this is not positive.
      The width is an int that is counted down. */
  function Pads(width: int, len: nat): int {
    Int32(width - len)
  }

  /** Short of the least int, it is the difference. */
  lemma PadsInRange(width: int, len: nat)
    requires INT_MIN + len <= width <= INT_MAX
    ensures Pads(width, len) == width - len
  {
  }

  /** What printnum emits. */
  function NumText(n: nat, base: nat, width: int, padc: char): string
    requires 2 <= base <= 16
  {
    var ds := Digits(n, base);
    Padding(Pads(width, |ds|), padc) + ds
  }

  /** What %d emits. */
  function SignedText(v: int, width: int, padc: char): string {
    if v < 0 then "-" + NumText(-v, 10, width, padc) else NumText(v, 10, width, padc)
  }

  /** What %p emits. */
  function PointerText(p: nat, width: int, padc: char): string {
    "0x" + NumText(p, 16, width, padc)
  }

  // ---------- reading ----------

  /** The value of a digit in bases up to 36, or -1. */
  function DigitValue(c: char): int {
    if '0' <= c <= '9' then (c - '0') as int
    else if 'a' <= c <= 'z' then (c - 'a') as int + 10
    else if 'A' <= c <= 'Z' then (c - 'A') as int + 10
    else -1
  }

  predicate IsDigit(c: char, base: int) {
    0 <= DigitValue(c) < base
  }

  predicate IsBlank(c: char) {
    c == ' ' || c == '\t'
  }

  /** The first position from i on that is not blank. */
  function SkipBlanks(s: string, i: nat): (r: nat)
    requires i <= |s|
    ensures i <= r <= |s|
    ensures r < |s| ==> !IsBlank(s[r])
    ensures forall j | i <= j < r :: IsBlank(s[j])
    decreases |s| - i
  {
    if i < |s| && IsBlank(s[i]) then SkipBlanks(s, i + 1) else i
  }

  /** The first position from i on that is not a digit. */
  function DigitsEnd(s: string, i: nat, base: int): (r: nat)
    requires i <= |s|
    ensures i <= r <= |s|
    ensures r < |s| ==> !IsDigit(s[r], base)
    ensures forall j | i <= j < r :: IsDigit(s[j], base)
    decreases |s| - i
  {
    if i < |s| && IsDigit(s[i], base) then DigitsEnd(s, i + 1, base) else i
  }

  /** The number that a string of digits stands for. */
  function Value(ds: string, base: int): int {
    if ds == "" then 0 else Value(ds[..|ds| - 1], base) * base + DigitValue(ds[|ds| - 1])
  }

  /** Whether a sign stands at i, and where the number goes on. */
  function Sign(s: string, i: nat): (r: (bool, nat))
    requires i <= |s|
    ensures i <= r.1 <= |s|
  {
    if i < |s| && s[i] == '+' then (false, i + 1)
    else if i < |s| && s[i] == '-' then (true, i + 1)
    else (false, i)
  }

  /** The base that a prefix at i selects, and where the digits begin. */
  function Prefix(s: string, i: nat, base: int): (r: (int, nat))
    requires i <= |s|
    ensures i <= r.1 <= |s|
  {
    if (base == 0 || base == 16) && i + 1 < |s| && s[i] == '0' && s[i + 1] == 'x' then (16, i + 2)
    else if base == 0 && i < |s| && s[i] == '0' then (8, i + 1)
    else if base == 0 then (10, i)
    else (base, i)
  }

  /** The number that s spells, and how much of s it takes. */
  function Parse(s: string, base: int): (r: (int, nat))
    ensures r.1 <= |s|
  {
    var (neg, i) := Sign(s, SkipBlanks(s, 0));
    var (b, j) := Prefix(s, i, base);
    var e := DigitsEnd(s, j, b);
    var v := Value(s[j..e], b);
    (if neg then -v else v, e)
  }

  /** strtol: the long that is returned for s, and how much of s was read. */
  function Read(s: string, base: int): (r: (int, nat))
    ensures LONG_MIN <= r.0 <= LONG_MAX && r.1 <= |s|
  {
    var (v, e) := Parse(s, base);
    (Int64(v), e)
  }

  /** A character of a NUL-terminated string; the terminator may be read, but nothing after it. */
  function CharAt(s: string, i: nat): char
    requires i <= |s|
  {
    if i < |s| then s[i] else '\0'
  }

  ghost predicate CString(s: string) {
    '\0' !in s
  }

  lemma ValueSnoc(ds: string, c: char, base: int)
    ensures Value(ds + [c], base) == Value(ds, base) * base + DigitValue(c)
  {
    assert (ds + [c])[..|ds|] == ds;
  }

  /** val * base + dig, in longs. */
  function Accumulate(val: int, base: int, dig: int): int {
    Int64(Int64(val * base) + dig)
  }

  lemma AccumulateDigit(ds: string, c: char, base: int)
    ensures Accumulate(Int64(Value(ds, base)), base, DigitValue(c)) == Int64(Value(ds + [c], base))
  {
    hide Int64, Value, DigitValue;
    ValueSnoc(ds, c, base);
    Horner64(Value(ds, base), base, DigitValue(c));
  }

  /** The last loop of strtol, from position j on: val is a long, so that it wraps at every step. */
  method ReadDigits(s: string, j: nat, base: int) returns (val: int, i: nat)
    requires CString(s) && j <= |s|
    ensures i == DigitsEnd(s, j, base) && val == Int64(Value(s[j..i], base))
  {
    hide Value, Int64, Accumulate;
    val, i := 0, j;
    InRange(0);
    ValueOfNothing(base);
    assert s[j..j] == "";
    while true
      invariant j <= i <= |s| && DigitsEnd(s, j, base) == DigitsEnd(s, i, base)
      invariant val == Int64(Value(s[j..i], base))
      decreases |s| - i
    {
      var dig := DigitValue(CharAt(s, i));
      if dig == -1 { break; }
      if dig >= base { break; }
      assert s[j..i] + [s[i]] == s[j..i + 1];
      AccumulateDigit(s[j..i], s[i], base);
      i, val := i + 1, Accumulate(val, base, dig);
    }
  }

  lemma ValueOfNothing(base: int)
    ensures Value("", base) == 0
  {
  }

  /** strtol itself. Every read is at or before the terminating NUL; the result is the low 64 bits of the number. */
  method Strtol(s: string, base0: int) returns (r: int, end: nat)
    requires CString(s)
    ensures (r, end) == Read(s, base0)
  {
    hide Value, DigitsEnd, Int64, Parse;
    var base := base0;
    var neg := false;
    var i := 0;
    while IsBlank(CharAt(s, i))
      invariant i <= |s| && SkipBlanks(s, 0) == SkipBlanks(s, i)
      decreases |s| - i
    {
      i := i + 1;
    }
    if CharAt(s, i) == '+' {
      i := i + 1;
    } else if CharAt(s, i) == '-' {
      i, neg := i + 1, true;
    }
    assert (neg, i) == Sign(s, SkipBlanks(s, 0));
    ghost var i1 := i;
    if (base == 0 || base == 16) && CharAt(s, i) == '0' && CharAt(s, i + 1) == 'x' {
      i, base := i + 2, 16;
    } else if base == 0 && CharAt(s, i) == '0' {
      i, base := i + 1, 8;
    } else if base == 0 {
      base := 10;
    }
    assert (base, i) == Prefix(s, i1, base0);
    ParseFrom(s, base0, neg, i1, base, i);
    hide SkipBlanks, Sign, Prefix, CharAt;
    var val;
    val, end := ReadDigits(s, i, base);
    Negated64(Value(s[i..end], base));
    r := if neg then Int64(-val) else val;
  }

  // ---------- they undo each other ----------

  lemma DigitValueOfChar(d: nat)
    requires d < 16
    ensures DigitValue(DigitChar(d)) == d && DigitChar(d) != 'x' && !IsBlank(DigitChar(d))
    ensures DigitChar(d) != '+' && DigitChar(d) != '-'
  {
  }

  /** What every digit of a printed number is like. */
  ghost predicate PrintedDigit(c: char, base: nat) {
    IsDigit(c, base) && c != 'x' && !IsBlank(c) && c != '+' && c != '-'
  }

  lemma PrintedDigitOfChar(d: nat, base: nat)
    requires d < base <= 16
    ensures PrintedDigit(DigitChar(d), base)
  {
    hide DigitChar, DigitValue;
    DigitValueOfChar(d);
  }

  lemma LastDigit(n: nat, base: nat)
    requires 2 <= base <= 16
    ensures n % base < base && n == base * (n / base) + n % base
    ensures n > 0 ==> n / base < n
    ensures n < base ==> n % base == n
  {
    var q, r := n / base, n % base;
    DivisionParts(n, base);
    QuotientBound(n, base, q, r);
  }

  lemma DivisionParts(n: nat, base: nat)
    requires 2 <= base
    ensures n % base < base && n == base * (n / base) + n % base
  {
  }

  lemma QuotientBound(n: nat, base: nat, q: nat, r: nat)
    requires n == base * q + r && r < base && base >= 2
    ensures (n > 0 ==> q < n) && (n < base ==> r == n)
  {
    if q > 0 {
      AtLeast(base, q);
    }
  }

  lemma AtLeast(b: nat, q: nat)
    requires b >= 2 && q >= 1
    ensures b * q >= 2 * q && b * q >= b
  {
  }

  lemma {:induction false} DigitsAreDigits(n: nat, base: nat, i: nat)
    requires 2 <= base <= 16 && i < |Digits(n, base)|
    ensures PrintedDigit(Digits(n, base)[i], base)
  {
    hide DigitChar, DigitValue, PrintedDigit;
    LastDigit(n, base);
    if n < base {
      PrintedDigitOfChar(n, base);
    } else if i == |Digits(n / base, base)| {
      PrintedDigitOfChar(n % base, base);
    } else {
      DigitsAreDigits(n / base, base, i);
    }
  }

  lemma {:induction false} DigitsLength(n: nat, base: nat, k: nat)
    requires 2 <= base <= 16 && k >= 1 && n < Pow2(k)
    ensures |Digits(n, base)| <= k
  {
    hide DigitChar;
    if n >= base {
      LastDigit(n, base);
      AtLeast(base, n / base);
      DigitsLength(n / base, base, k - 1);
    }
  }

  lemma ShortDigits(n: nat, base: nat)
    requires 2 <= base <= 16 && n < TWO64
    ensures |Digits(n, base)| <= 64
  {
    Pow2Of64();
    DigitsLength(n, base, 64);
  }

  lemma {:induction false} ValueOfDigits(n: nat, base: nat)
    requires 2 <= base <= 16
    ensures Value(Digits(n, base), base) == n
  {
    hide DigitChar, DigitValue, Value;
    LastDigit(n, base);
    if n < base {
      ValueOfNothing(base);
      OneMoreDigit("", 0, n, base);
      assert "" + [DigitChar(n)] == [DigitChar(n)];
    } else {
      ValueOfDigits(n / base, base);
      OneMoreDigit(Digits(n / base, base), n / base, n % base, base);
    }
  }

  lemma OneMoreDigit(ds: string, q: nat, r: nat, base: nat)
    requires r < base <= 16 && Value(ds, base) == q
    ensures Value(ds + [DigitChar(r)], base) == base * q + r
  {
    hide DigitChar, DigitValue, Value;
    DigitValueOfChar(r);
    ValueSnoc(ds, DigitChar(r), base);
  }

  lemma {:induction false} LeadingZeros(zeros: string, ds: string, base: int)
    requires forall i | 0 <= i < |zeros| :: zeros[i] == '0'
    ensures Value(zeros + ds, base) == Value(ds, base)
  {
    if ds != "" {
      LeadingZeros(zeros, ds[..|ds| - 1], base);
      assert (zeros + ds)[..|zeros + ds| - 1] == zeros + ds[..|ds| - 1];
    } else if zeros != "" {
      LeadingZeros(zeros[..|zeros| - 1], "", base);
      assert zeros + "" == zeros && zeros[..|zeros| - 1] + "" == zeros[..|zeros| - 1];
    }
  }

  /** A string of blanks, then an optional sign and prefix, then digits to the end, is read completely. */
  lemma ReadsAll(s: string, i: nat, base: int)
    requires i <= |s| && forall j | i <= j < |s| :: IsDigit(s[j], base)
    ensures DigitsEnd(s, i, base) == |s|
  {
  }

  lemma StopsAt(s: string, i: nat, base: int)
    requires i < |s| && !IsDigit(s[i], base)
    ensures DigitsEnd(s, i, base) == i
  {
  }

  lemma {:induction false} BlanksEnd(s: string, i: nat, k: nat)
    requires k <= i < |s| && !IsBlank(s[i]) && forall j | k <= j < i :: IsBlank(s[j])
    ensures SkipBlanks(s, k) == i
    decreases i - k
  {
    if k < i {
      BlanksEnd(s, i, k + 1);
    }
  }

  /** Blanks and then digits to the end, without sign or prefix. */
  lemma ParsePlain(s: string, i: nat, base: int)
    requires i < |s| && base > 0
    requires (forall j | 0 <= j < i :: IsBlank(s[j])) && forall j | i <= j < |s| :: PrintedDigit(s[j], base)
    ensures Parse(s, base) == (Value(s[i..], base), |s|)
  {
    hide DigitValue, Value;
    BlanksEnd(s, i, 0);
    ReadsAll(s, i, base);
    assert s[i..|s|] == s[i..];
  }

  lemma NumTextParts(n: nat, base: nat, width: int, padc: char)
    requires 2 <= base <= 16
    ensures var ds := Digits(n, base);
            var s := NumText(n, base, width, padc);
            && |ds| <= |s| && s[|s| - |ds|..] == ds
            && (|s| == |ds| <==> Pads(width, |ds|) <= 0)
            && (forall j | 0 <= j < |s| - |ds| :: s[j] == padc)
            && (forall j | |s| - |ds| <= j < |s| :: PrintedDigit(s[j], base))
  {
    var ds := Digits(n, base);
    var s := NumText(n, base, width, padc);
    hide PrintedDigit, Digits, Pads;
    forall j | |s| - |ds| <= j < |s|
      ensures PrintedDigit(s[j], base)
    {
      DigitsAreDigits(n, base, j - (|s| - |ds|));
    }
  }

  lemma ZeroIsDigit(base: nat)
    requires base > 0
    ensures PrintedDigit('0', base)
  {
  }

  /** Zero padding does not change the number. */
  lemma NumTextValue(n: nat, base: nat, width: int, padc: char)
    requires 2 <= base <= 16 && (padc == '0' || Pads(width, |Digits(n, base)|) <= 0)
    ensures var s := NumText(n, base, width, padc);
            Value(s, base) == n && forall j | 0 <= j < |s| :: PrintedDigit(s[j], base)
  {
    hide Digits, Value, PrintedDigit, DigitValue, Pads;
    var ds := Digits(n, base);
    var pad := Padding(Pads(width, |ds|), padc);
    NumTextParts(n, base, width, padc);
    if padc == '0' { ZeroIsDigit(base); }
    ValueOfDigits(n, base);
    LeadingZeros(pad, ds, base);
    assert pad == "" ==> pad + ds == ds;
  }

  /** What printnum emits spells the number: in the bases in use, for every width, padded with blanks or zeros. */
  lemma NumTextParses(n: nat, base: nat, width: int, padc: char)
    requires base in {8, 10, 16} && (padc == ' ' || padc == '0')
    ensures var s := NumText(n, base, width, padc); Parse(s, base) == (n, |s|)
  {
    hide NumText, Parse, Digits, Value, PrintedDigit;
    var ds := Digits(n, base);
    var s := NumText(n, base, width, padc);
    NumTextParts(n, base, width, padc);
    if padc == ' ' {
      ValueOfDigits(n, base);
      ParsePlain(s, |s| - |ds|, base);
    } else {
      NumTextValue(n, base, width, padc);
      ParsePlain(s, 0, base);
      assert s[0..] == s;
    }
  }

  /** strtol reads printnum's output to its end, and gives the number exactly if that is at most LONG_MAX. */
  lemma ReadNumText(n: nat, base: nat, width: int, padc: char)
    requires base in {8, 10, 16} && (padc == ' ' || padc == '0')
    ensures var s := NumText(n, base, width, padc);
            Read(s, base) == (Int64(n), |s|) && (Read(s, base) == (n, |s|) <==> n <= LONG_MAX)
  {
    hide NumText, Parse;
    NumTextParses(n, base, width, padc);
    InRange(n);
  }

  // ---------- the prefix ----------

  /** Before hexadecimal digits the prefix 0x is read over, after blanks and a sign or not; but at 0X, which the
      documentation promises as well, strtol stops behind the 0. */
  lemma HexPrefix(s: string, i: nat, neg: bool, base: int)
    requires (base == 0 || base == 16) && Sign(s, SkipBlanks(s, 0)) == (neg, i)
    requires i + 2 <= |s| && s[i] == '0' && (s[i + 1] == 'x' || s[i + 1] == 'X')
    requires forall j | i + 2 <= j < |s| :: IsDigit(s[j], 16)
    ensures Read(s, base).1 == |s| <==> s[i + 1] == 'x'
    ensures s[i + 1] == 'x' ==>
      var v := Value(s[i + 2..], 16); Read(s, base) == (Int64(if neg then -v else v), |s|)
    ensures s[i + 1] == 'X' ==> Read(s, base) == (0, i + 1)
  {
    hide Value, SkipBlanks, DigitsEnd, Int64, DigitValue, IsDigit, Sign, Parse;
    InRange(0);
    if s[i + 1] == 'x' {
      ReadsAll(s, i + 2, 16);
      assert s[i + 2..|s|] == s[i + 2..];
      ParseFrom(s, base, neg, i, 16, i + 2);
    } else {
      StopsBehindZero(s, i);
      ParseFrom(s, base, neg, i, if base == 0 then 8 else 16, if base == 0 then i + 1 else i);
    }
  }

  /** Behind sign and prefix. */
  lemma ParseFrom(s: string, base: int, neg: bool, i: nat, b: int, j: nat)
    requires i <= j <= |s| && Sign(s, SkipBlanks(s, 0)) == (neg, i) && Prefix(s, i, base) == (b, j)
    ensures var e := DigitsEnd(s, j, b);
            Parse(s, base) == (if neg then -Value(s[j..e], b) else Value(s[j..e], b), e)
  {
    hide Value, SkipBlanks, DigitsEnd, Sign, Prefix;
  }

  lemma StopsBehindZero(s: string, i: nat)
    requires i + 1 < |s| && s[i] == '0' && s[i + 1] == 'X'
    ensures DigitsEnd(s, i, 16) == DigitsEnd(s, i + 1, 8) == i + 1
    ensures Value(s[i..i + 1], 16) == Value(s[i + 1..i + 1], 8) == 0
  {
    StopsAt(s, i + 1, 8);
    StopsAt(s, i + 1, 16);
    assert DigitsEnd(s, i, 16) == DigitsEnd(s, i + 1, 16);
    assert s[i..i + 1] == "" + ['0'];
    ValueSnoc("", '0', 16);
  }

  /** For instance, 0X1f is read as 0, and 0x1f as 31. */
  lemma UpperCasePrefix(base: int)
    requires base == 0 || base == 16
    ensures Read("0X1f", base) == (0, 1) && Read("0x1f", base) == (31, 4)
  {
    hide Read, Value, Sign, SkipBlanks, Int64;
    StartsWithZero("0X1f");
    StartsWithZero("0x1f");
    HexPrefix("0X1f", 0, false, base);
    HexPrefix("0x1f", 0, false, base);
    ValueOf1f();
    InRange(31);
    assert "0x1f"[2..] == "1f";
  }

  lemma StartsWithZero(s: string)
    requires s != "" && s[0] == '0'
    ensures Sign(s, SkipBlanks(s, 0)) == (false, 0)
  {
  }

  lemma ValueOf1f()
    ensures Value("1f", 16) == 31
  {
    assert "1f" == "1" + ['f'] && "1" == "" + ['1'];
    ValueSnoc("", '1', 16);
    ValueSnoc("1", 'f', 16);
  }

  // ---------- exactly when %d and %p read back ----------

  /** After a sign at position 0. */
  lemma ParseSigned(s: string)
    requires |s| > 0 && s[0] == '-'
    ensures |s| > 1 && (forall j | 1 <= j < |s| :: PrintedDigit(s[j], 10)) ==> Parse(s, 10) == (-Value(s[1..], 10), |s|)
    ensures |s| > 1 && !IsDigit(s[1], 10) ==> Parse(s, 10) == (0, 1)
  {
    hide DigitValue, Value;
    BlanksEnd(s, 0, 0);
    if |s| > 1 && !IsDigit(s[1], 10) {
      StopsAt(s, 1, 10);
      assert s[1..1] == "";
      ValueOfNothing(10);
    } else if forall j | 1 <= j < |s| :: PrintedDigit(s[j], 10) {
      ReadsAll(s, 1, 10);
      assert s[1..|s|] == s[1..];
    }
  }

  /** When nothing but digits follows the sign, or padding makes no difference. */
  predicate SignedReadsBack(v: int, width: int, padc: char) {
    var len := |Digits(if v < 0 then -v else v, 10)|;
    || Pads(width, len) <= 0
    || padc == '0'
    || (padc == ' ' && v >= 0)
    || (padc == '-' && v == 0 && Pads(width, 1) == 1)
  }

  lemma SignedNegative(v: int, width: int, padc: char)
    requires LONG_MIN <= v < 0 && padc in {' ', '0', '-'}
    ensures var s := SignedText(v, width, padc);
            Read(s, 10) == (v, |s|) <==> SignedReadsBack(v, width, padc)
  {
    hide Parse, Digits, Value, NumText, PrintedDigit, Pads, Int64;
    var body := NumText(-v, 10, width, padc);
    var s := SignedText(v, width, padc);
    assert s == "-" + body && s[1..] == body;
    NumTextParts(-v, 10, width, padc);
    ParseSigned(s);
    InRange(v);
    if padc == '0' || Pads(width, |Digits(-v, 10)|) <= 0 {
      NumTextValue(-v, 10, width, padc);
    } else {
      PaddingIsNoDigit(padc);
    }
  }

  lemma PaddingIsNoDigit(padc: char)
    requires padc == ' ' || padc == '-'
    ensures !IsDigit(padc, 10) && !IsDigit(padc, 16)
  {
  }

  /** A dash that pads a number that is not negative is taken for a sign. */
  lemma DashPadded(n: nat, width: int)
    requires Pads(width, |Digits(n, 10)|) > 0 && n <= LONG_MAX
    ensures var s := NumText(n, 10, width, '-');
            Read(s, 10) == (n, |s|) <==> n == 0 && Pads(width, 1) == 1
  {
    hide Parse, Value, NumText, PrintedDigit, Pads, Int64;
    hide Digits;
    var ds := Digits(n, 10);
    var s := NumText(n, 10, width, '-');
    NumTextParts(n, 10, width, '-');
    NumTextLength(n, 10, width, '-');
    ParseSigned(s);
    InRange(0 - n);
    if Pads(width, |ds|) == 1 {
      assert s[1..] == ds;
      ValueOfDigits(n, 10);
      OneDigit(n);
    } else {
      PaddingIsNoDigit('-');
      assert s[1] == '-';
      OneDigit(n);
    }
  }

  lemma NumTextLength(n: nat, base: nat, width: int, padc: char)
    requires 2 <= base <= 16
    ensures var ds := Digits(n, base);
            |NumText(n, base, width, padc)| == |ds| + if Pads(width, |ds|) <= 0 then 0 else Pads(width, |ds|)
  {
  }

  lemma OneDigit(n: nat)
    ensures n == 0 ==> |Digits(n, 10)| == 1
  {
  }

  /** strtol reads a printed %d back exactly if the number is not padded, padded with zeros, or
      not negative and padded with blanks (or is 0 behind a single dash). */
  lemma SignedRoundTrip(v: int, width: int, padc: char)
    requires LONG_MIN <= v <= LONG_MAX && padc in {' ', '0', '-'}
    ensures var s := SignedText(v, width, padc);
            Read(s, 10) == (v, |s|) <==> SignedReadsBack(v, width, padc)
  {
    hide Parse, Value, NumText, PrintedDigit, Pads, Int64;
    if v < 0 {
      SignedNegative(v, width, padc);
    } else {
      hide Digits;
      var s := NumText(v, 10, width, padc);
      if padc != '-' {
        ReadNumText(v, 10, width, padc);
      } else if Pads(width, |Digits(v, 10)|) <= 0 {
        NumTextValue(v, 10, width, padc);
        NumTextParts(v, 10, width, padc);
        ParsePlain(s, 0, 10);
        assert s[0..] == s;
        InRange(v);
      } else {
        DashPadded(v, width);
      }
    }
  }

  /** For instance, -5 in a field of four blanks is read as 0. */
  lemma BlankAfterSign()
    ensures SignedText(-5, 4, ' ') == "-   5" && Read("-   5", 10) == (0, 1)
  {
    assert NumText(5, 10, 4, ' ') == "   5";
    ParseSigned("-   5");
  }

  /** A printed %p spells the pointer, in base 0 or 16, exactly if it is not padded or padded with zeros;
      else strtol stops behind the prefix. */
  lemma PointerParses(p: nat, width: int, padc: char, base: int)
    requires padc in {' ', '0', '-'} && (base == 0 || base == 16)
    ensures var s := PointerText(p, width, padc);
            Parse(s, base) == if Pads(width, |Digits(p, 16)|) <= 0 || padc == '0' then (p, |s|) else (0, 2)
    ensures |PointerText(p, width, padc)| > 2
  {
    hide Digits, Value, NumText, DigitValue, Pads;
    var body := NumText(p, 16, width, padc);
    var s := PointerText(p, width, padc);
    assert s[2..] == body && s[2..|s|] == s[2..];
    NumTextParts(p, 16, width, padc);
    BlanksEnd(s, 0, 0);
    assert Prefix(s, 0, base) == (16, 2);
    if padc == '0' || Pads(width, |Digits(p, 16)|) <= 0 {
      NumTextValue(p, 16, width, padc);
      assert forall j | 2 <= j < |s| :: s[j] == body[j - 2];
      ReadsAll(s, 2, 16);
    } else {
      PaddingIsNoDigit(padc);
      assert s[2] == padc;
      StopsAt(s, 2, 16);
      assert s[2..2] == "";
      ValueOfNothing(16);
    }
  }

  /** strtol reads a printed %p back exactly if the pointer is at most LONG_MAX and not padded or padded with
      zeros; in that format, the bits of the long are those of every pointer. */
  lemma PointerRoundTrip(p: nat, width: int, padc: char, base: int)
    requires padc in {' ', '0', '-'} && (base == 0 || base == 16) && p < TWO64
    ensures var s := PointerText(p, width, padc);
            var plain := Pads(width, |Digits(p, 16)|) <= 0 || padc == '0';
            && (Read(s, base) == (p, |s|) <==> p <= LONG_MAX && plain)
            && (Read(s, base).0 % TWO64 == p && Read(s, base).1 == |s| <==> plain)
  {
    hide Parse, PointerText, Digits, Pads;
    PointerParses(p, width, padc, base);
    InRange(p);
    Unsigned64(p);
  }

  const KERNBASE: nat := 0xffff_ffff_c020_0000

  /** For instance, the lowest kernel address is read as a negative long. */
  lemma KernelAddress()
    ensures var s := PointerText(KERNBASE, -1, ' '); Read(s, 0) == (KERNBASE - TWO64, |s|) && Read(s, 0).0 < 0
  {
    hide Parse, PointerText, Digits;
    ShortDigits(KERNBASE, 16);
    PadsInRange(-1, |Digits(KERNBASE, 16)|);
    PointerParses(KERNBASE, -1, ' ', 0);
  }
}
