/** The formatter of lab8/libs/printfmt.c: vprintfmt, and vsnprintf on top of it. */
module PrintFmt {
  import opened CInts
  import opened Options
  import opened Numerals

  const E_INVAL: int := 3
  const MAXERROR: int := 24

  // ---------- arguments ----------

  /** A variable-argument slot: a 64-bit word, and the string that it points to when it is used as a char*. */
  datatype Arg = Arg(word: nat, text: Option<string>)

  /** The argument list; position k is what the k-th va_arg returns. */
  type Args = nat -> Arg

  /** getint */
  function IntArg(a: Arg, lflag: int): int {
    if lflag != 0 then Int64(a.word) else Int32(a.word)
  }

  /** getuint */
  function UintArg(a: Arg, lflag: int): nat {
    if lflag != 0 then a.word % TWO64 else a.word % TWO32
  }

  // ---------- what a format means ----------

  /** The state that the flags of a %-escape build up. */
  datatype Spec = Spec(padc: char, width: cint, precision: cint, lflag: cint, alt: bool)

  const Plain := Spec(' ', -1, -1, 0, false)

  predicate IsDecimal(c: char) {
    '0' <= c <= '9'
  }

  /** A number before a conversion is the width, or the precision if there is a width already. */
  function WithNumber(sp: Spec, n: cint): Spec {
    if sp.width < 0 then sp.(width := n, precision := -1) else sp.(precision := n)
  }

  function NumberEnd(fmt: string, i: nat): (j: nat)
    requires i <= |fmt|
    ensures i <= j <= |fmt| && !IsDecimal(CharAt(fmt, j))
    ensures forall k | i <= k < j :: IsDecimal(fmt[k])
    decreases |fmt| - i
  {
    if i < |fmt| && IsDecimal(fmt[i]) then NumberEnd(fmt, i + 1) else i
  }

  predicate IsFlag(c: char) {
    c == '-' || '0' <= c <= '9' || c == '*' || c == '.' || c == '#' || c == 'l'
  }

  datatype Scan = Scan(sp: Spec, pos: nat, arg: nat)

  /** Reads flags from position i on, up to the conversion character. */
  function Flags(fmt: string, i: nat, sp: Spec, args: Args, k: nat): (r: Scan)
    requires i <= |fmt|
    ensures i <= r.pos <= |fmt| && !IsFlag(CharAt(fmt, r.pos))
    ensures forall j | i <= j < r.pos :: IsFlag(fmt[j])
    decreases |fmt| - i
  {
    var c := CharAt(fmt, i);
    if c == '-' then Flags(fmt, i + 1, sp.(padc := '-'), args, k)
    else if c == '0' then Flags(fmt, i + 1, sp.(padc := '0'), args, k)
    else if '1' <= c <= '9' then
      var j := NumberEnd(fmt, i);
      Flags(fmt, j, WithNumber(sp, Int32(Value(fmt[i..j], 10))), args, k)
    else if c == '*' then Flags(fmt, i + 1, WithNumber(sp, Int32(args(k).word)), args, k + 1)
    else if c == '.' then Flags(fmt, i + 1, if sp.width < 0 then sp.(width := 0) else sp, args, k)
    else if c == '#' then Flags(fmt, i + 1, sp.(alt := true), args, k)
    else if c == 'l' then Flags(fmt, i + 1, sp.(lflag := Int32(sp.lflag + 1)), args, k)
    else Scan(sp, i, k)
  }

  /** strnlen(p, precision), where -1 is the largest size_t. */
  function TextLength(p: string, precision: int): (n: nat)
    ensures n <= |p|
  {
    if precision < 0 || |p| <= precision then |p| else precision
  }

  function Shown(p: string, alt: bool): string {
    seq(|p|, i requires 0 <= i < |p| => if alt && (p[i] < ' ' || p[i] > '~') then '?' else p[i])
  }

  /** %s */
  function StringText(p: string, sp: Spec): string {
    var n := TextLength(p, sp.precision);
    var body := Shown(p[..n], sp.alt);
    if sp.width > 0 && sp.padc != '-' then
      var left := Pads(sp.width, n);
      Padding(left, sp.padc) + body + Padding(Pads(if left > 0 then 0 else left, n), ' ')
    else body + Padding(Pads(sp.width, n), ' ')
  }

  /** Unless it has more than a thousand million characters, a string is padded on one side, as its field says. */
  lemma StringTextShort(p: string, sp: Spec)
    requires sp.width >= -1 && TextLength(p, sp.precision) <= 0x4000_0000
    ensures var n := TextLength(p, sp.precision);
            var body := Shown(p[..n], sp.alt);
            StringText(p, sp) == if sp.padc != '-' then Padding(sp.width - n, sp.padc) + body
                                 else body + Padding(sp.width - n, ' ')
  {
    hide Padding, Shown, Pads, TextLength;
    var n := TextLength(p, sp.precision);
    PadsInRange(sp.width, n);
    if sp.width > 0 && sp.padc != '-' {
      var left := sp.width - n;
      PadsInRange(if left > 0 then 0 else left, n);
    }
    assert "" + Shown(p[..n], sp.alt) == Shown(p[..n], sp.alt) == Shown(p[..n], sp.alt) + "";
  }

  /** A short C string. */
  type Message = s: string | CString(s) && |s| <= 40 witness ""

  const UNSPECIFIED: Message := "unspecified error"
  const BAD_PROC: Message := "bad process"
  const INVAL: Message := "invalid parameter"
  const NO_MEM: Message := "out of memory"
  const NO_FREE_PROC: Message := "out of processes"
  const FAULT: Message := "segmentation fault"
  const INVAL_ELF: Message := "invalid elf file"
  const KILLED: Message := "process is killed"
  const PANIC: Message := "panic failure"
  const NO_DEV: Message := "no such device"
  const NA_DEV: Message := "device not available"
  const BUSY: Message := "device/file is busy"
  const NOENT: Message := "no such file or directory"
  const ISDIR: Message := "is a directory"
  const NOTDIR: Message := "not a directory"
  const XDEV: Message := "cross device link"
  const UNIMP: Message := "unimplemented feature"
  const SEEK: Message := "illegal seek"
  const MAX_OPEN: Message := "too many files are open"
  const EXISTS: Message := "file or directory already exists"
  const NOTEMPTY: Message := "directory is not empty"

  /** error_string; the numbers without a text are those that the table skips. */
  function ErrorString(err: nat): Option<Message> {
    match err
    case 1 => Some(UNSPECIFIED)
    case 2 => Some(BAD_PROC)
    case 3 => Some(INVAL)
    case 4 => Some(NO_MEM)
    case 5 => Some(NO_FREE_PROC)
    case 6 => Some(FAULT)
    case 8 => Some(INVAL_ELF)
    case 9 => Some(KILLED)
    case 10 => Some(PANIC)
    case 13 => Some(NO_DEV)
    case 14 => Some(NA_DEV)
    case 15 => Some(BUSY)
    case 16 => Some(NOENT)
    case 17 => Some(ISDIR)
    case 18 => Some(NOTDIR)
    case 19 => Some(XDEV)
    case 20 => Some(UNIMP)
    case 21 => Some(SEEK)
    case 22 => Some(MAX_OPEN)
    case 23 => Some(EXISTS)
    case 24 => Some(NOTEMPTY)
    case _ => None
  }

  /** %e */
  function ErrorText(e: int): string {
    var err := if e < 0 then -e else e;
    if err > MAXERROR || ErrorString(err).None? then "error " + NumText(err, 10, -1, ' ')
    else ErrorString(err).value
  }

  predicate IsConversion(c: char) {
    c == 'c' || c == 'e' || c == 's' || c == 'd' || c == 'u' || c == 'o' || c == 'p' || c == 'x' || c == '%'
  }

  /** What a conversion emits. */
  function Converted(c: char, sp: Spec, a: Arg): string
    requires IsConversion(c)
  {
    if c == 'c' then [(a.word % 256) as char]
    else if c == 'e' then ErrorText(IntArg(a, 0))
    else if c == 's' then StringText(if a.text.Some? then a.text.value else "(null)", sp)
    else if c == 'd' then SignedText(IntArg(a, sp.lflag), sp.width, sp.padc)
    else if c == 'u' then NumText(UintArg(a, sp.lflag), 10, sp.width, sp.padc)
    else if c == 'o' then NumText(UintArg(a, sp.lflag), 8, sp.width, sp.padc)
    else if c == 'p' then PointerText(a.word % TWO64, sp.width, sp.padc)
    else if c == 'x' then NumText(UintArg(a, sp.lflag), 16, sp.width, sp.padc)
    else "%"
  }

  /** The arguments that a conversion uses up. */
  function Uses(c: char): nat {
    if c == '%' then 0 else 1
  }

  /** The output for the format from position i on, with k arguments already used. */
  function FormatFrom(fmt: string, i: nat, args: Args, k: nat): string
    requires i <= |fmt|
    decreases |fmt| - i
  {
    if i == |fmt| then ""
    else if fmt[i] != '%' then [fmt[i]] + FormatFrom(fmt, i + 1, args, k)
    else
      var s := Flags(fmt, i + 1, Plain, args, k);
      var c := CharAt(fmt, s.pos);
      if IsConversion(c) then
        Converted(c, s.sp, args(s.arg)) + FormatFrom(fmt, s.pos + 1, args, s.arg + Uses(c))
      else "%" + FormatFrom(fmt, i + 1, args, s.arg)
  }

  /** The whole output of vprintfmt. */
  function Format(fmt: string, args: Args): string {
    FormatFrom(fmt, 0, args, 0)
  }

  // ---------- laws of the format language ----------

  /** What is not a conversion, and what a rewound escape continues with. */
  lemma FormatStep(fmt: string, i: nat, args: Args, k: nat)
    requires i < |fmt|
    ensures fmt[i] != '%' ==> FormatFrom(fmt, i, args, k) == [fmt[i]] + FormatFrom(fmt, i + 1, args, k)
    ensures fmt[i] == '%' ==>
      var s := Flags(fmt, i + 1, Plain, args, k);
      FormatFrom(fmt, i, args, k) ==
        if IsConversion(CharAt(fmt, s.pos)) then
          Converted(CharAt(fmt, s.pos), s.sp, args(s.arg))
          + FormatFrom(fmt, s.pos + 1, args, s.arg + Uses(CharAt(fmt, s.pos)))
        else "%" + FormatFrom(fmt, i + 1, args, s.arg)
  {
    hide Flags, Converted, Uses, IsConversion;
  }

  /** Text without % stands for itself. */
  lemma {:induction false} PlainText(fmt: string, i: nat, j: nat, args: Args, k: nat)
    requires i <= j <= |fmt| && forall m | i <= m < j :: fmt[m] != '%'
    ensures FormatFrom(fmt, i, args, k) == fmt[i..j] + FormatFrom(fmt, j, args, k)
    decreases j - i
  {
    hide FormatFrom, Flags, Converted, IsConversion, CharAt, Uses;
    if i < j {
      FormatStep(fmt, i, args, k);
      PlainText(fmt, i + 1, j, args, k);
      assert fmt[i..j] == [fmt[i]] + fmt[i + 1..j];
    } else {
      assert fmt[i..j] == "";
    }
  }

  /** An escape that is not recognised, cut short by the end of the format or not, is emitted as it stands. */
  lemma UnknownEscape(fmt: string, i: nat, args: Args, k: nat)
    requires i < |fmt| && fmt[i] == '%'
    requires var s := Flags(fmt, i + 1, Plain, args, k); !IsConversion(CharAt(fmt, s.pos))
    ensures var s := Flags(fmt, i + 1, Plain, args, k);
            var j := if s.pos < |fmt| then s.pos + 1 else s.pos;
            FormatFrom(fmt, i, args, k) == fmt[i..j] + FormatFrom(fmt, j, args, s.arg)
  {
    hide FormatFrom, Flags, Converted, IsConversion, Uses, IsFlag;
    var s := Flags(fmt, i + 1, Plain, args, k);
    FormatStep(fmt, i, args, k);
    var j := if s.pos < |fmt| then s.pos + 1 else s.pos;
    forall m | i + 1 <= m < j ensures fmt[m] != '%' {
      NoPercent(fmt[m]);
    }
    PlainText(fmt, i + 1, j, args, s.arg);
    assert fmt[i..j] == "%" + fmt[i + 1..j];
  }

  lemma NulIsNothing()
    ensures !IsConversion('\0')
  {
  }

  lemma NoPercent(c: char)
    ensures IsFlag(c) || !IsConversion(c) ==> c != '%'
  {
  }

  // ---------- the bounded sink ----------

  /** A buffer of the given size at start holds as much of the text as fits, NUL-terminated; the rest of the
      memory is as before. */
  ghost predicate Stored(before: seq<char>, m: seq<char>, start: nat, size: int, text: string) {
    var n := if |text| < size then |text| else size - 1;
    && 0 <= n && start + n < |before|
    && m == before[..start] + text[..n] + ['\0'] + before[start + n + 1..]
  }

  /** A memory in which the first n characters of a text were put at start. */
  ghost function Written(before: seq<char>, out: string, start: nat, n: nat): seq<char>
    requires start + n <= |before| && n <= |out|
  {
    before[..start] + out[..n] + before[start + n..]
  }

  /** struct sprintbuf over a memory of characters. */
  class SprintBuf {
    const mem: array<char>
    var buf: int
    const ebuf: int
    var cnt: int
    /** Everything that was put so far, where it began, and the memory before. */
    ghost var out: string
    ghost const start: nat
    ghost const before: seq<char>

    ghost predicate Valid()
      reads this, mem
    {
      && start <= buf <= ebuf < mem.Length == |before|
      && cnt == Int32(|out|)
      && buf - start == (if |out| <= ebuf - start then |out| else ebuf - start)
      && mem[..] == Written(before, out, start, buf - start)
    }

    constructor (mem: array<char>, str: nat, size: nat)
      requires size > 0 && str + size <= mem.Length
      ensures Valid() && this.mem == mem && ebuf == str + size - 1
      ensures out == "" && start == str && before == mem[..]
    {
      this.mem, buf, ebuf, cnt := mem, str, str + size - 1, 0;
      out, start, before := "", str, mem[..];
    }

    /** sprintputch */
    method Putch(ch: char)
      requires Valid()
      modifies this, mem
      ensures Valid() && out == old(out) + [ch]
    {
      hide Int32, Written;
      Sum32(|out|, 1);
      cnt := Int32(cnt + 1);
      ghost var m, text := mem[..], out;
      out := text + [ch];
      if buf < ebuf {
        OneMore(before, text, start, ch);
        mem[buf] := ch;
        assert mem[..] == m[buf := ch];
        buf := buf + 1;
      } else {
        NoMore(before, text, start, buf - start, ch);
      }
    }

    /** The end of vsnprintf: NUL-terminates the buffer and gives the count. */
    method Finish() returns (n: int)
      requires Valid()
      modifies mem
      ensures n == Int32(|out|)
      ensures Stored(before, mem[..], start, ebuf - start + 1, out)
    {
      Terminated(before, mem[..], out, start, buf - start);
      ghost var m := mem[..];
      mem[buf] := '\0';
      assert mem[..] == m[buf := '\0'];
      return cnt;
    }
  }

  lemma OneMore(before: seq<char>, out: string, start: nat, ch: char)
    requires start + |out| < |before|
    ensures var m := Written(before, out, start, |out|);
            |m| == |before| && m[start + |out| := ch] == Written(before, out + [ch], start, |out| + 1)
  {
    assert (out + [ch])[..|out| + 1] == out[..|out|] + [ch];
    assert before[start + |out|..] == [before[start + |out|]] + before[start + |out| + 1..];
  }

  lemma NoMore(before: seq<char>, out: string, start: nat, n: nat, ch: char)
    requires start + n <= |before| && n <= |out|
    ensures Written(before, out + [ch], start, n) == Written(before, out, start, n)
  {
    assert (out + [ch])[..n] == out[..n];
  }

  lemma Terminated(before: seq<char>, m: seq<char>, out: string, start: nat, n: nat)
    requires start + n < |before| && n <= |out| && m == before[..start] + out[..n] + before[start + n..]
    ensures m[start + n := '\0'] == before[..start] + out[..n] + ['\0'] + before[start + n + 1..]
  {
    assert before[start + n..] == [before[start + n]] + before[start + n + 1..];
  }

  /** `n` times the same character. */
  method Pad(b: SprintBuf, n: int, c: char)
    requires b.Valid()
    modifies b, b.mem
    ensures b.Valid() && b.out == old(b.out) + Padding(n, c)
  {
    var left := n;
    assert b.out == old(b.out) + Padding(0, c);
    while left > 0
      invariant b.Valid() && (left == n || 0 <= left <= n)
      invariant b.out == old(b.out) + Padding(n - left, c)
    {
      b.Putch(c);
      left := left - 1;
      assert Padding(n - left, c) == Padding(n - left - 1, c) + [c];
    }
    assert Padding(n - left, c) == Padding(n, c);
  }

  lemma NumTextStep(num: nat, base: nat, width: int, padc: char)
    requires 2 <= base <= 16
    ensures num >= base ==>
      NumText(num, base, width, padc)
        == NumText(num / base, base, Int32(width - 1), padc) + [DigitChar(num % base)]
    ensures num < base ==> NumText(num, base, width, padc) == Padding(Int32(width - 1), padc) + [DigitChar(num)]
  {
    hide DigitChar, Int32;
    if num >= base {
      Sum32(width - 1, -|Digits(num / base, base)|);
    }
  }

  /** printnum */
  method PrintNum(b: SprintBuf, num: nat, base: nat, width: int, padc: char)
    requires 2 <= base <= 16 && b.Valid()
    modifies b, b.mem
    ensures b.Valid() && b.out == old(b.out) + NumText(num, base, width, padc)
    decreases num
  {
    hide NumText, DigitChar, Digits, Padding, SprintBuf.Valid;
    NumTextStep(num, base, width, padc);
    LastDigit(num, base);
    var result, mod := num / base, num % base;
    if num >= base {
      PrintNum(b, result, base, Int32(width - 1), padc);
    } else {
      Pad(b, Int32(width - 1), padc);
    }
    b.Putch(DigitChar(mod));
  }

  /** strnlen */
  method Strnlen(p: string, len: int) returns (n: nat)
    requires CString(p)
    ensures n == TextLength(p, len)
  {
    n := 0;
    while (len < 0 || n < len) && CharAt(p, n) != '\0'
      invariant n <= |p| && (len >= 0 ==> n <= len)
      decreases |p| - n
    {
      n := n + 1;
    }
  }

  function ShownChar(ch: char, alt: bool): char {
    if alt && (ch < ' ' || ch > '~') then '?' else ch
  }

  /** The loop of %s that puts the characters of the string. */
  method PrintBody(b: SprintBuf, p: string, width0: cint, precision0: cint, alt: bool) returns (width: cint)
    requires CString(p) && b.Valid()
    modifies b, b.mem
    ensures b.Valid() && b.out == old(b.out) + Shown(p[..TextLength(p, precision0)], alt)
    ensures width == Pads(width0, TextLength(p, precision0))
  {
    hide Int32;
    InRange(width0);
    var precision := precision0;
    width := width0;
    var i: nat := 0;
    while true
      invariant i <= TextLength(p, precision0) && width == Pads(width0, i) && b.Valid()
      invariant precision0 < 0 ==> precision == precision0
      invariant precision0 >= 0 ==> precision == precision0 - i
      invariant b.out == old(b.out) + Shown(p[..i], alt)
      decreases |p| - i
    {
      var ch := CharAt(p, i);
      if ch == '\0' { break; }
      if precision >= 0 {
        precision := precision - 1;
        if precision < 0 { break; }
      }
      b.Putch(ShownChar(ch, alt));
      assert Shown(p[..i + 1], alt) == Shown(p[..i], alt) + [ShownChar(ch, alt)];
      i := i + 1;
      Sum32(width0 - i + 1, -1);
      width := Int32(width - 1);
    }
  }

  /** %s */
  method PrintString(b: SprintBuf, p: string, sp: Spec)
    requires CString(p) && b.Valid()
    modifies b, b.mem
    ensures b.Valid() && b.out == old(b.out) + StringText(p, sp)
  {
    hide TextLength, Shown, Padding, SprintBuf.Valid, Int32;
    var width := sp.width;
    if width > 0 && sp.padc != '-' {
      var n := Strnlen(p, sp.precision);
      width := Int32(width - n);
      Pad(b, width, sp.padc);
      if width > 0 { width := 0; }
    }
    ghost var left := b.out;
    width := PrintBody(b, p, width, sp.precision, sp.alt);
    ghost var body := Shown(p[..TextLength(p, sp.precision)], sp.alt);
    assert b.out == left + body;
    Pad(b, width, ' ');
    assert b.out == left + (body + Padding(width, ' '));
  }

  // ---------- the format state machine ----------

  lemma FlagsStep(fmt: string, i: nat, sp: Spec, args: Args, k: nat)
    requires i <= |fmt|
    ensures var c := CharAt(fmt, i);
            IsFlag(c) ==>
              && i < |fmt|
              && Flags(fmt, i, sp, args, k) ==
                if c == '-' then Flags(fmt, i + 1, sp.(padc := '-'), args, k)
                else if c == '0' then Flags(fmt, i + 1, sp.(padc := '0'), args, k)
                else if '1' <= c <= '9' then
                  Flags(fmt, NumberEnd(fmt, i), WithNumber(sp, Int32(Value(fmt[i..NumberEnd(fmt, i)], 10))), args, k)
                else if c == '*' then Flags(fmt, i + 1, WithNumber(sp, Int32(args(k).word)), args, k + 1)
                else if c == '.' then Flags(fmt, i + 1, if sp.width < 0 then sp.(width := 0) else sp, args, k)
                else if c == '#' then Flags(fmt, i + 1, sp.(alt := true), args, k)
                else Flags(fmt, i + 1, sp.(lflag := Int32(sp.lflag + 1)), args, k)
    ensures !IsFlag(CharAt(fmt, i)) ==> Flags(fmt, i, sp, args, k) == Scan(sp, i, k)
  {
    hide Value, NumberEnd, WithNumber, Int32;
  }

  /** The loop of the width field: ch is the digit just read, i the position after it. */
  method ReadNumber(fmt: string, ch0: char, i0: nat) returns (precision: cint, i: nat)
    requires CString(fmt) && 0 < i0 <= |fmt| && ch0 == fmt[i0 - 1] && '1' <= ch0 <= '9'
    ensures i == NumberEnd(fmt, i0 - 1) && i0 <= i && precision == Int32(Value(fmt[i0 - 1..i], 10))
  {
    hide Value, Int32;
    InRange(0);
    var ch := ch0;
    precision, i := 0, i0;
    assert fmt[i0 - 1..i0 - 1] == "";
    ValueOfNothing(10);
    while true
      invariant i0 <= i <= |fmt| && ch == fmt[i - 1] && IsDecimal(ch)
      invariant NumberEnd(fmt, i0 - 1) == NumberEnd(fmt, i)
      invariant precision == Int32(Value(fmt[i0 - 1..i - 1], 10))
      decreases |fmt| - i
    {
      ValueSnoc(fmt[i0 - 1..i - 1], ch, 10);
      assert fmt[i0 - 1..i - 1] + [ch] == fmt[i0 - 1..i];
      Horner32(Value(fmt[i0 - 1..i - 1], 10), 10, (ch - '0') as int);
      Sum32(Int32(precision * 10) + ch as int, -('0' as int));
      precision := Int32(Int32(Int32(precision * 10) + ch as int) - '0' as int);
      ch := CharAt(fmt, i);
      if ch < '0' || ch > '9' { break; }
      i := i + 1;
    }
  }

  /** The reswitch loop: reads flags until a character that is none; i is then behind that character. */
  method ReadFlags(fmt: string, i0: nat, args: Args, k0: nat) returns (ch: char, sp: Spec, i: nat, k: nat)
    requires CString(fmt) && i0 <= |fmt|
    ensures 1 <= i && Scan(sp, i - 1, k) == Flags(fmt, i0, Plain, args, k0) && ch == CharAt(fmt, i - 1)
  {
    hide Flags, Value, NumberEnd, Int32;
    var padc, width: cint, precision: cint, lflag: cint, alt := ' ', -1, -1, 0, false;
    i, k := i0, k0;
    while true
      invariant i <= |fmt|
      invariant Flags(fmt, i, Spec(padc, width, precision, lflag, alt), args, k) == Flags(fmt, i0, Plain, args, k0)
      decreases |fmt| - i
    {
      FlagsStep(fmt, i, Spec(padc, width, precision, lflag, alt), args, k);
      ch := CharAt(fmt, i);
      i := i + 1;
      if ch == '-' {
        padc := '-';
      } else if ch == '0' {
        padc := '0';
      } else if '1' <= ch <= '9' {
        precision, i := ReadNumber(fmt, ch, i);
        if width < 0 { width, precision := precision, -1; }
      } else if ch == '*' {
        precision, k := Int32(args(k).word), k + 1;
        if width < 0 { width, precision := precision, -1; }
      } else if ch == '.' {
        if width < 0 { width := 0; }
      } else if ch == '#' {
        alt := true;
      } else if ch == 'l' {
        lflag := Int32(lflag + 1);
      } else {
        break;
      }
    }
    sp := Spec(padc, width, precision, lflag, alt);
  }

  /** The default branch's walk back to just behind the % at position p. */
  method Rewind(fmt: string, i0: nat, ghost p: nat) returns (i: nat)
    requires p < |fmt| && fmt[p] == '%' && p + 2 <= i0 <= |fmt| + 1
    requires forall j | p < j < i0 - 1 :: fmt[j] != '%'
    ensures i == p + 1
  {
    i := i0 - 1;
    while fmt[i - 1] != '%'
      invariant p < i < i0
      decreases i
    {
      i := i - 1;
    }
  }

  /** Every %e that the format reaches is given a number other than INT_MIN, whose negation does not exist;
      and there is none at all in a nested call. */
  ghost predicate Defined(fmt: string, i: nat, args: Args, k: nat, nested: bool)
    requires i <= |fmt|
    decreases |fmt| - i
  {
    if i == |fmt| then true
    else if fmt[i] != '%' then Defined(fmt, i + 1, args, k, nested)
    else
      var s := Flags(fmt, i + 1, Plain, args, k);
      var c := CharAt(fmt, s.pos);
      if IsConversion(c) then
        && (c == 'e' ==> !nested && IntArg(args(s.arg), 0) != INT_MIN)
        && Defined(fmt, s.pos + 1, args, s.arg + Uses(c), nested)
      else Defined(fmt, i + 1, args, s.arg, nested)
  }

  ghost predicate Texts(args: Args) {
    forall k: nat :: args(k).text.Some? ==> CString(args(k).text.value)
  }

  lemma TextAt(args: Args, k: nat)
    requires Texts(args)
    ensures args(k).text.Some? ==> CString(args(k).text.value)
  {
  }

  lemma DefinedStep(fmt: string, i: nat, args: Args, k: nat, nested: bool)
    requires i < |fmt| && Defined(fmt, i, args, k, nested)
    ensures fmt[i] != '%' ==> Defined(fmt, i + 1, args, k, nested)
    ensures fmt[i] == '%' ==>
      var s := Flags(fmt, i + 1, Plain, args, k);
      var c := CharAt(fmt, s.pos);
      if IsConversion(c) then
        && (c == 'e' ==> !nested && IntArg(args(s.arg), 0) != INT_MIN)
        && Defined(fmt, s.pos + 1, args, s.arg + Uses(c), nested)
      else Defined(fmt, i + 1, args, s.arg, nested)
  {
    hide Flags, IsConversion, Uses, IntArg;
  }

  lemma Letter(c: char)
    requires c == 's' || c == 'd'
    ensures !IsFlag(c) && IsConversion(c) && c != '%' && c != 'e' && Uses(c) == 1
  {
  }

  /** A conversion without flags. */
  lemma NoFlags(fmt: string, i: nat, args: Args)
    requires i < |fmt| && (fmt[i] == 's' || fmt[i] == 'd')
    ensures Flags(fmt, i, Plain, args, 0) == Scan(Plain, i, 0)
  {
    hide Flags;
    FlagsStep(fmt, i, Plain, args, 0);
  }

  /** "%d" and "%s" behind plain text. */
  lemma OneConversion(fmt: string, p: nat, args: Args)
    requires p + 2 == |fmt| && fmt[p] == '%' && (fmt[p + 1] == 's' || fmt[p + 1] == 'd')
    requires forall j | 0 <= j < p :: fmt[j] != '%'
    ensures Format(fmt, args) == fmt[..p] + Converted(fmt[p + 1], Plain, args(0))
    ensures Defined(fmt, 0, args, 0, true)
  {
    hide Converted, FormatFrom, Defined;
    PlainText(fmt, 0, p, args, 0);
    LastConversion(fmt, p, args);
    assert fmt[0..p] == fmt[..p];
    PlainDefined(fmt, 0, p, args);
  }

  lemma LastConversion(fmt: string, p: nat, args: Args)
    requires p + 2 == |fmt| && fmt[p] == '%' && (fmt[p + 1] == 's' || fmt[p + 1] == 'd')
    ensures FormatFrom(fmt, p, args, 0) == Converted(fmt[p + 1], Plain, args(0))
  {
    hide Converted, FormatFrom, Flags, IsConversion, IsFlag, Uses;
    NoFlags(fmt, p + 1, args);
    Letter(fmt[p + 1]);
    FormatEnds(fmt, args, 1);
    FormatStep(fmt, p, args, 0);
    var text := Converted(fmt[p + 1], Plain, args(0));
    assert text + "" == text;
  }

  lemma FormatEnds(fmt: string, args: Args, k: nat)
    ensures FormatFrom(fmt, |fmt|, args, k) == ""
  {
  }

  lemma {:induction false} PlainDefined(fmt: string, i: nat, p: nat, args: Args)
    requires i <= p && p + 2 == |fmt| && fmt[p] == '%' && (fmt[p + 1] == 's' || fmt[p + 1] == 'd')
    requires forall j | 0 <= j < p :: fmt[j] != '%'
    ensures Defined(fmt, i, args, 0, true)
    decreases p - i
  {
    hide Flags;
    if i < p {
      PlainDefined(fmt, i + 1, p, args);
    } else {
      NoFlags(fmt, p + 1, args);
      assert Defined(fmt, p + 2, args, 1, true);
    }
  }

  /** Without width and precision, %s is the text itself. */
  lemma WholeText(p: string)
    requires |p| <= INT_MAX
    ensures StringText(p, Plain) == p
  {
    assert p[..|p|] == p;
    assert Shown(p, false) == p;
  }

  /** %e: the number is printed by the formatter itself. */
  method PrintError(b: SprintBuf, e: int)
    requires b.Valid() && INT_MIN < e <= INT_MAX
    modifies b, b.mem
    ensures b.Valid() && b.out == old(b.out) + ErrorText(e)
    decreases 1, 0
  {
    hide FormatFrom, StringText, ErrorString, Defined, NumText, Int32;
    InRange(-e);
    InRange(e);
    var err: int := if e < 0 then Int32(-e) else e;
    if err > MAXERROR || ErrorString(err).None? {
      var args := (k: nat) => Arg(err, None);
      OneConversion("error %d", 6, args);
      Vprintfmt(b, "error %d", args, true);
      assert "error %d"[..6] == "error ";
    } else {
      var text: Message := ErrorString(err).value;
      var args := (k: nat) => Arg(1, Some(text));
      OneConversion("%s", 0, args);
      Vprintfmt(b, "%s", args, true);
      WholeText(text);
      assert "%s"[..0] == "";
    }
  }

  /** The signed and the unsigned number conversions, and %p. */
  method PrintNumber(b: SprintBuf, c: char, sp: Spec, a: Arg)
    requires b.Valid() && c in "duopx"
    modifies b, b.mem
    ensures b.Valid() && b.out == old(b.out) + Converted(c, sp, a)
  {
    hide NumText, UintArg, Int64;
    var num, base;
    if c == 'd' {
      num, base := IntArg(a, sp.lflag), 10;
      if num < 0 {
        b.Putch('-');
        Magnitude64(num);
        num := Int64(-num) % TWO64;
      }
    } else if c == 'p' {
      b.Putch('0');
      b.Putch('x');
      num, base := a.word % TWO64, 16;
    } else {
      num, base := UintArg(a, sp.lflag), if c == 'u' then 10 else if c == 'o' then 8 else 16;
    }
    PrintNum(b, num, base, sp.width, sp.padc);
  }

  /** The branches of the switch that end in break, except default. */
  method Convert(b: SprintBuf, c: char, sp: Spec, a: Arg, ghost nested: bool)
    requires b.Valid() && IsConversion(c) && (a.text.Some? ==> CString(a.text.value))
    requires c == 'e' ==> !nested && IntArg(a, 0) != INT_MIN
    modifies b, b.mem
    ensures b.Valid() && b.out == old(b.out) + Converted(c, sp, a)
    decreases if nested then 0 else 1, 1
  {
    hide StringText, ErrorText, SignedText, NumText, PointerText;
    if c == 'c' {
      b.Putch((a.word % 256) as char);
    } else if c == 'e' {
      PrintError(b, IntArg(a, 0));
    } else if c == 's' {
      PrintString(b, if a.text.Some? then a.text.value else "(null)", sp);
    } else if c == '%' {
      b.Putch('%');
    } else {
      PrintNumber(b, c, sp, a);
    }
  }

  /** The inner loop that copies text up to a % (then i is behind it) or to the end. */
  method PutText(b: SprintBuf, fmt: string, i0: nat, args: Args, k: nat) returns (ended: bool, i: nat)
    requires CString(fmt) && i0 <= |fmt| && b.Valid()
    modifies b, b.mem
    ensures b.Valid() && i0 < i <= |fmt| + 1
    ensures ended ==> b.out == old(b.out) + FormatFrom(fmt, i0, args, k)
    ensures !ended ==> i <= |fmt| && fmt[i - 1] == '%' && forall j | i0 <= j < i - 1 :: fmt[j] != '%'
    ensures !ended ==> b.out == old(b.out) + fmt[i0..i - 1]
  {
    hide FormatFrom;
    var ch := CharAt(fmt, i0);
    i := i0 + 1;
    assert fmt[i0..i - 1] == "";
    while ch != '%'
      invariant i0 < i <= |fmt| + 1 && b.Valid() && ch == CharAt(fmt, i - 1)
      invariant forall j | i0 <= j < i - 1 :: fmt[j] != '%'
      invariant b.out == old(b.out) + fmt[i0..i - 1]
      decreases |fmt| + 1 - i
    {
      if ch == '\0' {
        PlainText(fmt, i0, |fmt|, args, k);
        FormatEnds(fmt, args, k);
        return true, i;
      }
      b.Putch(ch);
      assert fmt[i0..i] == fmt[i0..i - 1] + [fmt[i - 1]];
      ch := CharAt(fmt, i);
      i := i + 1;
    }
    ended := false;
  }

  lemma {:induction false} PlainKeepsDefined(fmt: string, i: nat, j: nat, args: Args, k: nat, nested: bool)
    requires i <= j <= |fmt| && (forall m | i <= m < j :: fmt[m] != '%') && Defined(fmt, i, args, k, nested)
    ensures Defined(fmt, j, args, k, nested)
    decreases j - i
  {
    hide Defined;
    if i < j {
      DefinedStep(fmt, i, args, k, nested);
      PlainKeepsDefined(fmt, i + 1, j, args, k, nested);
    }
  }

  lemma Regrouped(a: string, b: string, c: string)
    ensures (a + b) + c == a + (b + c)
  {
  }

  /** One escape, whose % is just before position j. */
  method Escape(b: SprintBuf, fmt: string, j: nat, args: Args, k0: nat, ghost nested: bool) returns (i: nat, k: nat)
    requires CString(fmt) && Texts(args) && b.Valid()
    requires 1 <= j <= |fmt| && fmt[j - 1] == '%' && Defined(fmt, j - 1, args, k0, nested)
    modifies b, b.mem
    ensures b.Valid() && j <= i <= |fmt| && Defined(fmt, i, args, k, nested)
    ensures b.out + FormatFrom(fmt, i, args, k) == old(b.out) + FormatFrom(fmt, j - 1, args, k0)
    decreases if nested then 0 else 1, 2
  {
    hide FormatFrom, Flags, Converted, Defined, IsConversion, IsFlag, SprintBuf.Valid, Uses, Texts, CString, IntArg;
    FormatStep(fmt, j - 1, args, k0);
    DefinedStep(fmt, j - 1, args, k0, nested);
    NulIsNothing();
    var ch, sp;
    ch, sp, i, k := ReadFlags(fmt, j, args, k0);
    ghost var before := b.out;
    if IsConversion(ch) {
      TextAt(args, k);
      Convert(b, ch, sp, args(k), nested);
      Regrouped(before, Converted(ch, sp, args(k)), FormatFrom(fmt, i, args, k + Uses(ch)));
      k := k + Uses(ch);
    } else {
      b.Putch('%');
      forall m | j <= m < i - 1 ensures fmt[m] != '%' {
        NoPercent(fmt[m]);
      }
      i := Rewind(fmt, i, j - 1);
      Regrouped(before, "%", FormatFrom(fmt, i, args, k));
    }
  }

  /** vprintfmt: for every format it ends, reads nothing behind the terminating NUL, and puts Format(fmt, args).
      An unknown escape moves the cursor back, but to a place behind the last % that was read. */
  method Vprintfmt(b: SprintBuf, fmt: string, args: Args, ghost nested: bool)
    requires CString(fmt) && Texts(args) && b.Valid() && Defined(fmt, 0, args, 0, nested)
    modifies b, b.mem
    ensures b.Valid() && b.out == old(b.out) + Format(fmt, args)
    decreases if nested then 0 else 1, 3
  {
    hide FormatFrom, Defined, SprintBuf.Valid;
    var i: nat, k: nat := 0, 0;
    while true
      invariant i <= |fmt| && b.Valid() && Defined(fmt, i, args, k, nested)
      invariant b.out + FormatFrom(fmt, i, args, k) == old(b.out) + Format(fmt, args)
      decreases |fmt| - i
    {
      var ended, j := PutText(b, fmt, i, args, k);
      if ended { return; }
      PlainText(fmt, i, j - 1, args, k);
      PlainKeepsDefined(fmt, i, j - 1, args, k, nested);
      i, k := Escape(b, fmt, j, args, k, nested);
    }
  }

  /** vsnprintf, storing at offset str of a memory, or at NULL. */
  method Vsnprintf(mem: array<char>, str: Option<nat>, size: nat, fmt: string, args: Args) returns (r: int)
    requires str.Some? ==> str.value + size <= mem.Length
    requires CString(fmt) && Texts(args) && Defined(fmt, 0, args, 0, false)
    modifies mem
    ensures str.None? || size == 0 ==> r == -E_INVAL && mem[..] == old(mem[..])
    ensures str.Some? && size > 0 ==>
      && Stored(old(mem[..]), mem[..], str.value, size, Format(fmt, args))
      && r == Int32(|Format(fmt, args)|) && (r == |Format(fmt, args)| <==> |Format(fmt, args)| <= INT_MAX)
  {
    hide FormatFrom, Format, Defined, SprintBuf.Valid, Stored, Texts, CString;
    if str.None? || size == 0 {
      return -E_INVAL;
    }
    var b := new SprintBuf(mem, str.value, size);
    Vprintfmt(b, fmt, args, false);
    assert "" + Format(fmt, args) == Format(fmt, args);
    InRange(|Format(fmt, args)|);
    r := b.Finish();
  }

  // ---------- what is printed with a width reads back ----------

  lemma {:induction false} FirstDigit(n: nat)
    ensures n > 0 ==> '1' <= Digits(n, 10)[0] <= '9'
    ensures forall i | 0 <= i < |Digits(n, 10)| :: IsDecimal(Digits(n, 10)[i])
  {
    if n >= 10 {
      FirstDigit(n / 10);
    }
  }

  lemma {:induction false} NumberEndAt(fmt: string, i: nat, j: nat)
    requires i <= j < |fmt| && (forall m | i <= m < j :: IsDecimal(fmt[m])) && !IsDecimal(fmt[j])
    ensures NumberEnd(fmt, i) == j
    decreases j - i
  {
    if i < j {
      NumberEndAt(fmt, i + 1, j);
    }
  }

  /** "%17d", "%017d", "%17ld" and "%017ld", for every width and number conversion. */
  function WidthFormat(zero: bool, width: nat, long: bool, c: char): string {
    "%" + (if zero then "0" else "") + Digits(width, 10) + (if long then "l" else "") + [c]
  }

  ghost predicate NumberLetter(c: char) {
    c == 'd' || c == 'u' || c == 'o' || c == 'x' || c == 'p'
  }

  lemma NumberLetters(c: char)
    requires NumberLetter(c)
    ensures !IsFlag(c) && IsConversion(c) && !IsDecimal(c) && c != '%'
    ensures forall d :: IsDecimal(d) || d == 'l' ==> IsFlag(d)
  {
  }

  /** The tail of such a format: from the first digit of the width on. */
  lemma FlagsOfWidth(fmt: string, i: nat, width: nat, long: bool, c: char, sp: Spec, args: Args, k: nat)
    requires i <= |fmt| && width > 0 && NumberLetter(c) && sp.width < 0
    requires fmt[i..] == Digits(width, 10) + (if long then "l" else "") + [c]
    ensures Flags(fmt, i, sp, args, k)
         == Scan(sp.(width := Int32(width), precision := -1, lflag := if long then Int32(sp.lflag + 1) else sp.lflag),
                 |fmt| - 1, k)
    ensures fmt[|fmt| - 1] == c
  {
    hide Flags, Digits, NumberEnd, Value, IsFlag, IsConversion, Int32;
    var ds := Digits(width, 10);
    var j := i + |ds|;
    FirstDigit(width);
    NumberLetters(c);
    assert forall m | 0 <= m < |fmt| - i :: fmt[i + m] == fmt[i..][m];
    assert fmt[i..j] == ds;
    assert fmt[j] == if long then 'l' else c;
    NumberEndAt(fmt, i, j);
    ValueOfDigits(width, 10);
    FlagsStep(fmt, i, sp, args, k);
    var sp1 := WithNumber(sp, Int32(width));
    FlagsStep(fmt, j, sp1, args, k);
    if long {
      FlagsStep(fmt, j + 1, sp1.(lflag := Int32(sp1.lflag + 1)), args, k);
    }
  }

  /** A width field means the int that it spells. */
  lemma WidthFormatMeans(zero: bool, width: nat, long: bool, c: char, args: Args)
    requires width > 0 && NumberLetter(c)
    ensures Format(WidthFormat(zero, width, long, c), args)
         == Converted(c, Spec(if zero then '0' else ' ', Int32(width), -1, if long then 1 else 0, false), args(0))
  {
    hide FormatFrom, Flags, Digits, Converted, IsFlag, IsConversion, Value, NumberEnd;
    var fmt := WidthFormat(zero, width, long, c);
    var tail := Digits(width, 10) + (if long then "l" else "") + [c];
    NumberLetters(c);
    FormatStep(fmt, 0, args, 0);
    if zero {
      assert fmt[2..] == tail;
      FlagsStep(fmt, 1, Plain, args, 0);
      FlagsOfWidth(fmt, 2, width, long, c, Plain.(padc := '0'), args, 0);
    } else {
      assert fmt[1..] == tail;
      FlagsOfWidth(fmt, 1, width, long, c, Plain, args, 0);
    }
    FormatEnds(fmt, args, 1);
  }

  /** A spelled width is the width of the field exactly as long as the padding can be counted in an int. */
  lemma WidthIsKept(n: nat, base: nat, width: nat, padc: char)
    requires 2 <= base <= 16 && n < TWO64
    ensures var len := |Digits(n, base)|;
            |NumText(n, base, Int32(width), padc)| == (if width < len then len else width) <==> width <= INT_MAX + len
  {
    hide Digits, NumText, Int32;
    var len := |Digits(n, base)|;
    ShortDigits(n, base);
    NumTextLength(n, base, Int32(width), padc);
    Sum32(width, -len);
    PadsExact(width, len);
  }

  lemma PadsExact(width: nat, len: nat)
    requires len <= 64
    ensures Int32(width - len) == width - len <==> width <= INT_MAX + len
  {
    InRange(width - len);
  }

  /** Unsigned numbers printed with any width are read to the end in the base they were printed in, and give
      the number exactly if that is at most LONG_MAX. */
  lemma UnsignedReadsBack(zero: bool, width: nat, long: bool, c: char, args: Args)
    requires width > 0 && c in "uox"
    ensures var s := Format(WidthFormat(zero, width, long, c), args);
            var base := if c == 'u' then 10 else if c == 'o' then 8 else 16;
            var n := args(0).word % (if long then 0x1_0000_0000_0000_0000 else 0x1_0000_0000);
            Read(s, base) == (Int64(n), |s|) && (Read(s, base) == (n, |s|) <==> n <= 0x7fff_ffff_ffff_ffff)
  {
    hide Format, WidthFormat, NumText, Read;
    WidthFormatMeans(zero, width, long, c, args);
    ReadNumText(UintArg(args(0), if long then 1 else 0), if c == 'u' then 10 else if c == 'o' then 8 else 16,
                Int32(width), if zero then '0' else ' ');
  }

  /** The argument of %d is the number in the range of an int, or of a long, that its low bits stand for. */
  lemma SignedArgument(a: Arg, long: bool)
    ensures var v := IntArg(a, if long then 1 else 0);
            if long then
              -0x8000_0000_0000_0000 <= v < 0x8000_0000_0000_0000 && (a.word - v) % 0x1_0000_0000_0000_0000 == 0
            else -0x8000_0000 <= v < 0x8000_0000 && (a.word - v) % 0x1_0000_0000 == 0
  {
    if long {
      var k := Wraps64(a.word);
    } else {
      var k := Wraps32(a.word);
    }
  }

  /** Signed numbers read back exactly if they are not negative, padded with zeros, or fill the width. */
  lemma SignedReadsBackFromFormat(zero: bool, width: nat, long: bool, args: Args)
    requires width > 0
    ensures var s := Format(WidthFormat(zero, width, long, 'd'), args);
            var v := IntArg(args(0), if long then 1 else 0);
            && (Read(s, 10) == (v, |s|) <==> zero || v >= 0 || Pads(width, |Digits(-v, 10)|) <= 0)
            && (v < 0 && width <= INT_MAX ==> (Pads(width, |Digits(-v, 10)|) <= 0 <==> width <= |Digits(-v, 10)|))
  {
    hide Format, WidthFormat, SignedText, Read, Digits, Int32;
    WidthFormatMeans(zero, width, long, 'd', args);
    var v := IntArg(args(0), if long then 1 else 0);
    SignedRoundTrip(v, Int32(width), if zero then '0' else ' ');
    if v < 0 {
      ShortDigits(-v, 10);
      Sum32(width, -|Digits(-v, 10)|);
      InRange(width - |Digits(-v, 10)|);
    }
  }
}
