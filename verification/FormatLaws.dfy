/** What single escapes of a format print, spelled out: flags, widths and precisions, and which arguments are used. */
module FormatLaws {
  import opened CInts
  import opened Options
  import opened Numerals
  import opened PrintFmt

  // ---------- one escape ----------

  /** A format that is one escape, once its flags are read. */
  lemma OneEscape(fmt: string, sp: Spec, k: nat, args: Args)
    requires |fmt| >= 2 && fmt[0] == '%' && Flags(fmt, 1, Plain, args, 0) == Scan(sp, |fmt| - 1, k)
    requires fmt[|fmt| - 1] in "cesduopx%"
    ensures Format(fmt, args) == Converted(fmt[|fmt| - 1], sp, args(k))
  {
    hide FormatFrom, Flags, Converted;
    var c := fmt[|fmt| - 1];
    FormatStep(fmt, 0, args, 0);
    FormatEnds(fmt, args, k + Uses(c));
    assert IsConversion(c);
    assert Converted(c, sp, args(k)) + "" == Converted(c, sp, args(k));
  }

  /** A conversion letter ends the flags. */
  lemma FlagsEnd(fmt: string, i: nat, sp: Spec, args: Args, k: nat)
    requires i < |fmt| && fmt[i] in "cesduopx%"
    ensures Flags(fmt, i, sp, args, k) == Scan(sp, i, k)
  {
    hide Flags;
    FlagsStep(fmt, i, sp, args, k);
  }

  /** A number among the flags. */
  lemma NumberFlag(fmt: string, i: nat, n: nat, sp: Spec, args: Args, k: nat)
    requires n > 0 && i + |Digits(n, 10)| < |fmt| && fmt[i..i + |Digits(n, 10)|] == Digits(n, 10)
    requires !IsDecimal(fmt[i + |Digits(n, 10)|])
    ensures Flags(fmt, i, sp, args, k) == Flags(fmt, i + |Digits(n, 10)|, WithNumber(sp, Int32(n)), args, k)
  {
    hide Flags, Digits, NumberEnd, Value, Int32;
    var ds := Digits(n, 10);
    var j := i + |ds|;
    FirstDigit(n);
    assert forall m | 0 <= m < |ds| :: fmt[i + m] == fmt[i..j][m];
    NumberEndAt(fmt, i, j);
    ValueOfDigits(n, 10);
    FlagsStep(fmt, i, sp, args, k);
  }

  // ---------- without width ----------

  /** No flags, or one or two l. */
  function Escape(longs: nat, c: char): string {
    "%" + (if longs == 0 then "" else if longs == 1 then "l" else "ll") + [c]
  }

  lemma EscapeMeans(longs: nat, c: char, args: Args)
    requires longs <= 2 && c in "cesduopx"
    ensures Format(Escape(longs, c), args) == Converted(c, Spec(' ', -1, -1, longs, false), args(0))
  {
    hide FormatFrom, Format, Flags, Converted;
    var fmt := Escape(longs, c);
    if longs == 0 {
      FlagsEnd(fmt, 1, Plain, args, 0);
    } else {
      FlagsStep(fmt, 1, Plain, args, 0);
      var sp := Plain.(lflag := 1);
      if longs == 1 {
        FlagsEnd(fmt, 2, sp, args, 0);
      } else {
        FlagsStep(fmt, 2, sp, args, 0);
        FlagsEnd(fmt, 3, sp.(lflag := 2), args, 0);
      }
    }
    OneEscape(fmt, Spec(' ', -1, -1, longs, false), 0, args);
  }

  lemma NoPads(n: nat, base: nat)
    requires 2 <= base <= 16 && n < TWO64
    ensures NumText(n, base, -1, ' ') == Digits(n, base)
  {
    hide Digits;
    ShortDigits(n, base);
    PadsInRange(-1, |Digits(n, base)|);
    assert "" + Digits(n, base) == Digits(n, base);
  }

  /** %u, %o and %x print the low 32 bits of their argument in base 10, 8 and 16; with an l, or two, the low 64. */
  lemma UnsignedEscape(longs: nat, c: char, args: Args)
    requires longs <= 2 && c in "uox"
    ensures var n := args(0).word % (if longs == 0 then 0x1_0000_0000 else 0x1_0000_0000_0000_0000);
            Format(Escape(longs, c), args) == Digits(n, if c == 'u' then 10 else if c == 'o' then 8 else 16)
  {
    hide Format, Escape, NumText, Digits;
    EscapeMeans(longs, c, args);
    NoPads(UintArg(args(0), longs), if c == 'u' then 10 else if c == 'o' then 8 else 16);
  }

  /** For instance. */
  lemma LongArgument()
    ensures var args := (k: nat) => Arg(5_000_000_000, None);
            Value(Format("%lu", args), 10) == 5_000_000_000 && Value(Format("%u", args), 10) == 705_032_704
  {
    hide Format, Digits, Value;
    var args := (k: nat) => Arg(5_000_000_000, None);
    UnsignedEscape(1, 'u', args);
    UnsignedEscape(0, 'u', args);
    assert Escape(1, 'u') == "%lu" && Escape(0, 'u') == "%u";
    ValueOfDigits(5_000_000_000, 10);
    ValueOfDigits(705_032_704, 10);
  }

  /** %d prints the number in the range of an int, or with an l of a long, that the low bits of its argument
      stand for: the digits of its magnitude, behind a dash if it is negative. */
  lemma SignedEscape(longs: nat, v: int, args: Args)
    requires longs <= 2
    requires longs == 0 ==> -0x8000_0000 <= v < 0x8000_0000 && (args(0).word - v) % 0x1_0000_0000 == 0
    requires longs > 0 ==>
      -0x8000_0000_0000_0000 <= v < 0x8000_0000_0000_0000 && (args(0).word - v) % 0x1_0000_0000_0000_0000 == 0
    ensures Format(Escape(longs, 'd'), args) == if v < 0 then "-" + Digits(-v, 10) else Digits(v, 10)
  {
    hide Format, Escape, NumText, Digits, IntArg;
    EscapeMeans(longs, 'd', args);
    SignedWord(args(0), longs, v);
    NoPads(if v < 0 then -v else v, 10);
  }

  lemma SignedWord(a: Arg, longs: nat, v: int)
    requires longs == 0 ==> -0x8000_0000 <= v < 0x8000_0000 && (a.word - v) % 0x1_0000_0000 == 0
    requires longs > 0 ==>
      -0x8000_0000_0000_0000 <= v < 0x8000_0000_0000_0000 && (a.word - v) % 0x1_0000_0000_0000_0000 == 0
    ensures IntArg(a, longs) == v
  {
    InRange(v);
    if longs == 0 {
      Same32(a.word, v, (a.word - v) / TWO32);
    } else {
      Same64(a.word, v, (a.word - v) / TWO64);
    }
  }

  /** %p prints 0x and the 64 bits of the pointer in base 16. */
  lemma PointerEscape(args: Args)
    ensures Format("%p", args) == "0x" + Digits(args(0).word % 0x1_0000_0000_0000_0000, 16)
  {
    hide Format, NumText, Digits;
    assert Escape(0, 'p') == "%p";
    EscapeMeans(0, 'p', args);
    NoPads(args(0).word % TWO64, 16);
  }

  /** %c prints the low byte of its argument, and %s the string, or a word for NULL. */
  lemma TextEscapes(args: Args)
    ensures Format("%c", args) == [(args(0).word % 256) as char]
    ensures args(0).text.Some? && |args(0).text.value| <= 0x7fff_ffff ==> Format("%s", args) == args(0).text.value
    ensures args(0).text.None? ==> Format("%s", args) == "(null)"
  {
    hide Format, StringText;
    assert Escape(0, 'c') == "%c" && Escape(0, 's') == "%s";
    EscapeMeans(0, 'c', args);
    EscapeMeans(0, 's', args);
    if args(0).text.Some? && |args(0).text.value| <= INT_MAX {
      WholeText(args(0).text.value);
    }
    WholeText("(null)");
  }

  /** Each conversion takes the next argument, and %% takes none. */
  lemma ArgumentsInOrder(args: Args)
    ensures Format("%c%%%c", args) == [(args(0).word % 256) as char, '%', (args(1).word % 256) as char]
  {
    var fmt := "%c%%%c";
    hide FormatFrom, Flags;
    FormatStep(fmt, 0, args, 0);
    FlagsEnd(fmt, 1, Plain, args, 0);
    FormatStep(fmt, 2, args, 1);
    FlagsEnd(fmt, 3, Plain, args, 1);
    FormatStep(fmt, 4, args, 1);
    FlagsEnd(fmt, 5, Plain, args, 1);
    FormatEnds(fmt, args, 2);
  }

  /** No other letter converts: it is printed with its %. */
  lemma OtherLetters(c: char, args: Args)
    requires c !in "cesduopx%" && c !in "-0123456789*.#l"
    ensures Format(['%', c], args) == ['%', c]
  {
    var fmt := ['%', c];
    hide FormatFrom, Flags;
    FormatStep(fmt, 0, args, 0);
    assert !IsFlag(c) && !IsConversion(c);
    FlagsStep(fmt, 1, Plain, args, 0);
    FormatStep(fmt, 1, args, 0);
    FormatEnds(fmt, args, 0);
  }

  // ---------- width, precision and the other flags ----------

  function Prefixed(p: string, n: nat): string {
    if |p| <= n then p else p[..n]
  }

  /** %5.3s and the like: at most so many characters, behind blanks up to the width. */
  lemma WidthAndPrecision(width: nat, most: nat, args: Args, p: string)
    requires 0 < width <= 0x7fff_ffff && 0 < most <= 0x4000_0000 && args(0).text == Some(p)
    ensures var shown := Prefixed(p, most);
            Format("%" + Digits(width, 10) + "." + Digits(most, 10) + "s", args)
              == Padding(width - |shown|, ' ') + shown
  {
    hide Format, Digits, Converted, Padding;
    FlagsOfBoth(width, most, args);
    ShownText(p, Plain.(width := width, precision := most), args(0));
  }

  lemma FlagsOfBoth(width: nat, most: nat, args: Args)
    requires 0 < width <= 0x7fff_ffff && 0 < most <= 0x7fff_ffff
    ensures Format("%" + Digits(width, 10) + "." + Digits(most, 10) + "s", args)
         == Converted('s', Plain.(width := width, precision := most), args(0))
  {
    hide Format, Digits, Converted;
    var w, m := Digits(width, 10), Digits(most, 10);
    TwoNumbers(w, m);
    BothFlags("%" + w + "." + m + "s", width, most, args);
  }

  lemma BothFlags(fmt: string, width: nat, most: nat, args: Args)
    requires 0 < width <= 0x7fff_ffff && 0 < most <= 0x7fff_ffff
    requires var i := 1 + |Digits(width, 10)|;
             var j := i + 1 + |Digits(most, 10)|;
             && |fmt| == j + 1 && fmt[0] == '%' && fmt[1..i] == Digits(width, 10) && fmt[i] == '.'
             && fmt[i + 1..j] == Digits(most, 10) && fmt[j] == 's'
    ensures Format(fmt, args) == Converted('s', Plain.(width := width, precision := most), args(0))
  {
    hide Format, Flags, Digits, Converted, Int32;
    var i := 1 + |Digits(width, 10)|;
    InRange(width);
    InRange(most);
    NumberFlag(fmt, 1, width, Plain, args, 0);
    var sp := Plain.(width := width);
    FlagsStep(fmt, i, sp, args, 0);
    NumberFlag(fmt, i + 1, most, sp, args, 0);
    var sp2 := sp.(precision := most);
    FlagsEnd(fmt, |fmt| - 1, sp2, args, 0);
    OneEscape(fmt, sp2, 0, args);
  }

  lemma TwoNumbers(w: string, m: string)
    ensures var fmt := "%" + w + "." + m + "s";
            var i := 1 + |w|;
            && |fmt| == i + |m| + 2 && fmt[0] == '%' && fmt[1..i] == w && fmt[i] == '.'
            && fmt[i + 1..i + 1 + |m|] == m && fmt[i + 1 + |m|] == 's'
  {
  }

  /** %.3s and the like: at most so many characters. */
  lemma PrecisionAlone(most: nat, args: Args, p: string)
    requires 0 < most <= 0x4000_0000 && args(0).text == Some(p)
    ensures Format("%." + Digits(most, 10) + "s", args) == Prefixed(p, most)
  {
    hide Format, Flags, Digits, Converted;
    var m := Digits(most, 10);
    var fmt := "%." + m + "s";
    assert fmt[1] == '.' && fmt[2..2 + |m|] == m && fmt[2 + |m|] == 's';
    InRange(most);
    FlagsStep(fmt, 1, Plain, args, 0);
    var sp := Plain.(width := 0);
    NumberFlag(fmt, 2, most, sp, args, 0);
    var sp2 := sp.(precision := most);
    FlagsEnd(fmt, 2 + |m|, sp2, args, 0);
    OneEscape(fmt, sp2, 0, args);
    ShownText(p, sp2, args(0));
    assert "" + Prefixed(p, most) == Prefixed(p, most);
  }

  /** %s without the alternate flag, for a string that is not excessively long. */
  lemma ShownText(p: string, sp: Spec, a: Arg)
    requires a.text == Some(p)
    requires sp.width >= -1 && !sp.alt && TextLength(p, sp.precision) <= 0x4000_0000
    ensures var shown := Prefixed(p, if sp.precision < 0 then |p| else sp.precision);
            Converted('s', sp, a)
              == if sp.padc != '-' then Padding(sp.width - |shown|, sp.padc) + shown
                 else shown + Padding(sp.width - |shown|, ' ')
  {
    hide Padding, StringText;
    StringTextShort(p, sp);
    var n := TextLength(p, sp.precision);
    assert Shown(p[..n], false) == p[..n];
    assert p[..|p|] == p;
  }

  /** The dash flag pads a string on the right, with blanks; but a number it pads on the left, with dashes. */
  lemma DashFlag(width: nat, args: Args, p: string)
    requires 0 < width <= 0x7fff_ffff && args(0).text == Some(p) && |p| <= 0x4000_0000
    ensures Format("%-" + Digits(width, 10) + "s", args) == p + Padding(width - |p|, ' ')
    ensures var ds := Digits(args(0).word % 0x1_0000_0000, 10);
            Format("%-" + Digits(width, 10) + "u", args) == Padding(width - |ds|, '-') + ds
  {
    hide Format, Digits, Converted, Padding;
    DashFlags(width, 's', args);
    DashFlags(width, 'u', args);
    var sp := Plain.(padc := '-', width := width);
    ShownText(p, sp, args(0));
    UnsignedField(sp, args(0));
  }

  lemma DashFlags(width: nat, c: char, args: Args)
    requires 0 < width <= 0x7fff_ffff && c in "su"
    ensures Format("%-" + Digits(width, 10) + [c], args) == Converted(c, Plain.(padc := '-', width := width), args(0))
  {
    hide Format, Digits, Converted;
    var w := Digits(width, 10);
    var fmt := "%-" + w + [c];
    assert fmt[1] == '-' && fmt[2..2 + |w|] == w && fmt[2 + |w|] == c;
    DashAndWidth(fmt, width, args);
  }

  lemma DashAndWidth(fmt: string, width: nat, args: Args)
    requires 0 < width <= 0x7fff_ffff && |fmt| == 3 + |Digits(width, 10)| && fmt[0] == '%' && fmt[1] == '-'
    requires fmt[2..|fmt| - 1] == Digits(width, 10) && fmt[|fmt| - 1] in "su"
    ensures Format(fmt, args) == Converted(fmt[|fmt| - 1], Plain.(padc := '-', width := width), args(0))
  {
    hide Format, Flags, Digits, Converted, Int32;
    InRange(width);
    FlagsStep(fmt, 1, Plain, args, 0);
    var sp := Plain.(padc := '-');
    NumberFlag(fmt, 2, width, sp, args, 0);
    var sp2 := sp.(width := width);
    FlagsEnd(fmt, |fmt| - 1, sp2, args, 0);
    OneEscape(fmt, sp2, 0, args);
  }

  /** The alternate flag replaces what is not printable in ASCII. */
  lemma AlternateFlag(args: Args, p: string)
    requires args(0).text == Some(p) && |p| <= 0x4000_0000
    ensures |Format("%#s", args)| == |p|
    ensures forall i | 0 <= i < |p| :: Format("%#s", args)[i] == if 32 <= p[i] as int <= 126 then p[i] else '?'
  {
    hide Format, Flags;
    var fmt := "%#s";
    FlagsStep(fmt, 1, Plain, args, 0);
    var sp := Plain.(alt := true);
    FlagsEnd(fmt, 2, sp, args, 0);
    OneEscape(fmt, sp, 0, args);
    StringTextShort(p, sp);
    assert p[..|p|] == p && Padding(-1 - |p|, ' ') == "";
    assert Format(fmt, args) == Shown(p, true);
  }

  /** A star takes the width from the arguments, before the number; a negative one is none. */
  lemma StarFlag(args: Args, width: int)
    requires -0x7fff_ff00 <= width <= 0x7fff_ffff && (args(0).word - width) % 0x1_0000_0000 == 0
    ensures var ds := Digits(args(1).word % 0x1_0000_0000, 10);
            Format("%*u", args) == Padding(width - |ds|, ' ') + ds
  {
    hide Format, Flags, Digits, Converted, Padding;
    var fmt := "%*u";
    assert Int32(args(0).word) == width;
    FlagsStep(fmt, 1, Plain, args, 0);
    var sp := Plain.(width := width);
    FlagsEnd(fmt, 2, sp, args, 1);
    OneEscape(fmt, sp, 1, args);
    UnsignedField(sp, args(1));
  }

  lemma UnsignedField(sp: Spec, a: Arg)
    requires sp.lflag == 0 && sp.width >= -0x7fff_ff00
    ensures var ds := Digits(a.word % 0x1_0000_0000, 10);
            Converted('u', sp, a) == Padding(sp.width - |ds|, sp.padc) + ds
  {
    hide Digits, Padding;
    ShortDigits(a.word % TWO32, 10);
    PadsInRange(sp.width, |Digits(a.word % TWO32, 10)|);
  }

  // ---------- what is promised of any format ----------

  /** Nothing is excluded but a %e of the least int: every format is dealt with if no argument has the low 32 bits
      0x80000000, or if there is no e in it. */
  lemma {:induction false} AllFormats(fmt: string, i: nat, args: Args, k: nat)
    requires i <= |fmt|
    requires (forall a: nat :: args(a).word % 0x1_0000_0000 != 0x8000_0000) || 'e' !in fmt
    ensures Defined(fmt, i, args, k, false)
    decreases |fmt| - i
  {
    hide Flags, IsConversion, Uses;
    if i < |fmt| {
      if fmt[i] != '%' {
        AllFormats(fmt, i + 1, args, k);
      } else {
        var s := Flags(fmt, i + 1, Plain, args, k);
        var c := CharAt(fmt, s.pos);
        if IsConversion(c) {
          NulIsNothing();
          AllFormats(fmt, s.pos + 1, args, s.arg + Uses(c));
        } else {
          AllFormats(fmt, i + 1, args, s.arg);
        }
      }
    }
  }

  /** What a buffer of the given size holds afterwards, character by character. */
  lemma StoredMeans(before: seq<char>, m: seq<char>, start: nat, size: nat, text: string)
    requires size > 0 && start + size <= |before|
    ensures Stored(before, m, start, size, text) <==>
      var n := if |text| <= size - 1 then |text| else size - 1;
      && |m| == |before|
      && (forall i | 0 <= i < n :: m[start + i] == text[i])
      && m[start + n] == '\0'
      && forall i | 0 <= i < |m| && !(start <= i <= start + n) :: m[i] == before[i]
  {
    var n := if |text| <= size - 1 then |text| else size - 1;
    var r := before[..start] + text[..n] + ['\0'] + before[start + n + 1..];
    assert |r| == |before|;
    assert forall i | 0 <= i < n :: r[start + i] == text[i];
    if |m| == |before| && (forall i | 0 <= i < n :: m[start + i] == text[i]) && m[start + n] == '\0'
       && forall i | 0 <= i < |m| && !(start <= i <= start + n) :: m[i] == before[i] {
      assert forall i | start <= i < start + n :: m[i] == text[i - start] by {
        forall i | start <= i < start + n ensures m[i] == text[i - start] {
          assert m[start + (i - start)] == text[i - start];
        }
      }
      assert m == r;
    }
  }

  // ---------- %e ----------

  function ErrorArgs(e: int): Args {
    (k: nat) => Arg(e % 0x1_0000_0000, None)
  }

  lemma ErrorEscape(e: int)
    requires -0x8000_0000 <= e <= 0x7fff_ffff
    ensures Format("%e", ErrorArgs(e)) == ErrorText(e)
  {
    hide Format, ErrorText;
    assert Escape(0, 'e') == "%e";
    EscapeMeans(0, 'e', ErrorArgs(e));
    assert Int32(e % TWO32) == e by {
      InRange(e);
      Same32(e, e % TWO32, e / TWO32);
    }
  }

  /** An error number and its negative print alike. */
  lemma ErrorSigns(e: int)
    requires -0x7fff_ffff <= e <= 0x7fff_ffff
    ensures Format("%e", ErrorArgs(e)) == Format("%e", ErrorArgs(-e))
  {
    hide Format, ErrorArgs;
    ErrorEscape(e);
    ErrorEscape(-e);
  }

  /** Numbers that are not in the table print as such, the others by their text: those of error.h. */
  lemma ErrorNumbers(e: nat)
    requires e <= 0x7fff_ffff
    ensures e == 0 || e == 7 || e == 11 || e == 12 || e > 24
       <==> Format("%e", ErrorArgs(e)) == "error " + Digits(e, 10)
    ensures Format("%e", ErrorArgs(-E_INVAL)) == "invalid parameter"
  {
    hide Format, ErrorArgs, Digits;
    ErrorEscape(e);
    ErrorEscape(-3);
    NoPads(e, 10);
    if ErrorString(e).Some? {
      NoErrorPrefix(e);
      assert ("error " + Digits(e, 10))[0] == 'e';
    }
  }

  /** The texts, by number. */
  lemma ErrorTexts(e: nat)
    requires e <= 24
    ensures e == 1 ==> Format("%e", ErrorArgs(e)) == "unspecified error"
    ensures e == 2 ==> Format("%e", ErrorArgs(e)) == "bad process"
    ensures e == 3 ==> Format("%e", ErrorArgs(e)) == "invalid parameter"
    ensures e == 4 ==> Format("%e", ErrorArgs(e)) == "out of memory"
    ensures e == 5 ==> Format("%e", ErrorArgs(e)) == "out of processes"
    ensures e == 6 ==> Format("%e", ErrorArgs(e)) == "segmentation fault"
    ensures e == 8 ==> Format("%e", ErrorArgs(e)) == "invalid elf file"
    ensures e == 9 ==> Format("%e", ErrorArgs(e)) == "process is killed"
    ensures e == 10 ==> Format("%e", ErrorArgs(e)) == "panic failure"
    ensures e == 13 ==> Format("%e", ErrorArgs(e)) == "no such device"
    ensures e == 14 ==> Format("%e", ErrorArgs(e)) == "device not available"
    ensures e == 15 ==> Format("%e", ErrorArgs(e)) == "device/file is busy"
    ensures e == 16 ==> Format("%e", ErrorArgs(e)) == "no such file or directory"
    ensures e == 17 ==> Format("%e", ErrorArgs(e)) == "is a directory"
    ensures e == 18 ==> Format("%e", ErrorArgs(e)) == "not a directory"
    ensures e == 19 ==> Format("%e", ErrorArgs(e)) == "cross device link"
    ensures e == 20 ==> Format("%e", ErrorArgs(e)) == "unimplemented feature"
    ensures e == 21 ==> Format("%e", ErrorArgs(e)) == "illegal seek"
    ensures e == 22 ==> Format("%e", ErrorArgs(e)) == "too many files are open"
    ensures e == 23 ==> Format("%e", ErrorArgs(e)) == "file or directory already exists"
    ensures e == 24 ==> Format("%e", ErrorArgs(e)) == "directory is not empty"
  {
    hide Format, ErrorArgs;
    ErrorEscape(e);
  }

  lemma NoErrorPrefix(e: nat)
    requires ErrorString(e).Some?
    ensures ErrorString(e).value != "" && ErrorString(e).value[0] != 'e'
  {
  }
}
