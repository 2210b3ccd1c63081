/** What strtol reads, character by character: blanks, signs, the octal prefix and the digits. */
module ReadLaws {
  import opened CInts
  import opened Numerals

  // ---------- reading behind one more character ----------

  lemma {:induction false} DigitsEndBehind(s: string, j: nat, base: int)
    requires j < |s|
    ensures DigitsEnd(s, j + 1, base) == DigitsEnd(s[1..], j, base) + 1
    decreases |s| - j
  {
    hide IsDigit;
    if j + 1 < |s| {
      assert s[1..][j] == s[j + 1];
      DigitsEndBehind(s, j + 1, base);
    }
  }

  lemma {:induction false} SkipBlanksBehind(s: string, j: nat)
    requires j < |s|
    ensures SkipBlanks(s, j + 1) == SkipBlanks(s[1..], j) + 1
    decreases |s| - j
  {
    hide IsBlank;
    if j + 1 < |s| {
      assert s[1..][j] == s[j + 1];
      SkipBlanksBehind(s, j + 1);
    }
  }

  /** The number from its prefix on, without a sign. */
  function Unsigned(s: string, i: nat, base: int): (r: (int, nat))
    requires i <= |s|
  {
    var (b, j) := Prefix(s, i, base);
    var e := DigitsEnd(s, j, b);
    (Value(s[j..e], b), e)
  }

  lemma PrefixBehind(s: string, i: nat, base: int)
    requires i < |s|
    ensures Prefix(s, i + 1, base) == (Prefix(s[1..], i, base).0, Prefix(s[1..], i, base).1 + 1)
  {
  }

  lemma UnsignedBehind(s: string, i: nat, base: int)
    requires i < |s|
    ensures Unsigned(s, i + 1, base) == (Unsigned(s[1..], i, base).0, Unsigned(s[1..], i, base).1 + 1)
  {
    hide DigitsEnd, IsDigit, Prefix, Value;
    PrefixBehind(s, i, base);
    var (b, j) := Prefix(s[1..], i, base);
    DigitsEndBehind(s, j, b);
    SliceBehind(s, j, DigitsEnd(s[1..], j, b));
  }

  lemma SliceBehind(s: string, j: nat, e: nat)
    requires j <= e < |s|
    ensures s[j + 1..e + 1] == s[1..][j..e]
  {
    var rest := s[1..];
    assert |s[j + 1..e + 1]| == e - j == |rest[j..e]|;
    forall x | 0 <= x < e - j
      ensures s[j + 1..e + 1][x] == rest[j..e][x]
    {
      assert rest[j + x] == s[j + x + 1];
    }
  }

  /** Behind blanks and sign. */
  function Start(s: string): (r: (bool, nat))
    ensures r.1 <= |s|
  {
    Sign(s, SkipBlanks(s, 0))
  }

  lemma ParseSignedNumber(s: string, base: int)
    ensures var (neg, i) := Start(s);
            var (v, e) := Unsigned(s, i, base);
            Parse(s, base) == (if neg then -v else v, e)
  {
    hide DigitsEnd, IsDigit, Prefix, Value, SkipBlanks, Sign;
  }

  lemma SignBehind(s: string, i: nat)
    requires i < |s|
    ensures Sign(s, i + 1) == (Sign(s[1..], i).0, Sign(s[1..], i).1 + 1)
  {
  }

  lemma StartBehind(s: string)
    requires s != "" && (s[0] == ' ' || s[0] == '\t')
    ensures Start(s) == (Start(s[1..]).0, Start(s[1..]).1 + 1)
  {
    assert SkipBlanks(s, 0) == SkipBlanks(s, 1);
    hide SkipBlanks, Sign, IsBlank;
    SkipBlanksBehind(s, 0);
    SignBehind(s, SkipBlanks(s[1..], 0));
  }

  /** A blank or a tab in front is skipped, whatever follows. */
  lemma BlankSkipped(s: string, base: int)
    requires s != "" && (s[0] == ' ' || s[0] == '\t')
    ensures Read(s, base) == (Read(s[1..], base).0, Read(s[1..], base).1 + 1)
  {
    hide Parse, Unsigned, Start;
    StartBehind(s);
    ParseSignedNumber(s, base);
    ParseSignedNumber(s[1..], base);
    UnsignedBehind(s, Start(s[1..]).1, base);
  }

  /** Neither blank nor sign. */
  predicate Starts(t: string) {
    t == "" || t[0] !in " \t+-"
  }

  lemma NoSignHere(t: string)
    requires Starts(t)
    ensures Start(t) == (false, 0)
  {
  }

  lemma SignHere(s: string)
    ensures s != "" && s[0] == '+' ==> Start(s) == (false, 1)
    ensures s != "" && s[0] == '-' ==> Start(s) == (true, 1)
  {
  }

  /** A plus is passed over, and a minus negates; there is at most one sign, directly before the number. */
  lemma SignRead(s: string, base: int)
    requires s != "" && Starts(s[1..])
    ensures s[0] == '+' ==> Read(s, base) == (Read(s[1..], base).0, Read(s[1..], base).1 + 1)
    ensures s[0] == '-' ==> Read(s, base) == (Int64(-Read(s[1..], base).0), Read(s[1..], base).1 + 1)
  {
    hide Parse, Unsigned, Start, Int64;
    if s[0] == '+' || s[0] == '-' {
      NoSignHere(s[1..]);
      SignHere(s);
      ParseSignedNumber(s, base);
      ParseSignedNumber(s[1..], base);
      UnsignedBehind(s, 0, base);
      Negated64(Parse(s[1..], base).0);
    }
  }

  /** For instance. */
  lemma PlusFive()
    ensures Read("+5", 10) == (5, 2) && Read("-5", 10) == (-5, 2) && Read(" \t+5", 10) == (5, 4)
  {
    hide Read;
    OneDigitRead('5', 10);
    assert "+5"[1..] == ['5'] && "-5"[1..] == ['5'] && " \t+5"[1..] == "\t+5" && "\t+5"[1..] == "+5";
    SignRead("+5", 10);
    SignRead("-5", 10);
    BlankSkipped("\t+5", 10);
    BlankSkipped(" \t+5", 10);
    InRange(-5);
  }

  /** With base 0, a 0 that no x follows selects octal, and any other digit decimal. */
  lemma BaseZero(s: string)
    requires s != ""
    ensures s[0] == '0' && Starts(s[1..]) && (|s| > 1 ==> s[1] != 'x') ==>
      Read(s, 0) == (Read(s[1..], 8).0, Read(s[1..], 8).1 + 1)
    ensures '1' <= s[0] <= '9' ==> Read(s, 0) == Read(s, 10)
  {
    hide Parse, Start, Unsigned;
    ParseSignedNumber(s, 0);
    ParseSignedNumber(s, 10);
    if '0' <= s[0] <= '9' {
      NoSignHere(s);
      PrefixOfZero(s);
    }
    if s[0] == '0' && Starts(s[1..]) {
      NoSignHere(s[1..]);
      ParseSignedNumber(s[1..], 8);
      UnsignedBehind(s, 0, 8);
    }
  }

  lemma PrefixOfZero(s: string)
    requires s != ""
    ensures s[0] == '0' && (|s| > 1 ==> s[1] != 'x') ==> Unsigned(s, 0, 0) == Unsigned(s, 1, 8)
    ensures '1' <= s[0] <= '9' ==> Unsigned(s, 0, 0) == Unsigned(s, 0, 10)
  {
    hide DigitsEnd, Value;
  }

  // ---------- digits ----------

  /** A digit by itself: 0 to 9, and then the letters, of either case, as far as the base goes. */
  lemma OneDigitRead(c: char, base: nat)
    requires 2 <= base <= 36
    ensures '0' <= c <= '9' && (c - '0') as int < base ==> Read([c], base) == ((c - '0') as int, 1)
    ensures 'a' <= c <= 'z' && (c - 'a') as int + 10 < base ==> Read([c], base) == ((c - 'a') as int + 10, 1)
    ensures 'A' <= c <= 'Z' && (c - 'A') as int + 10 < base ==> Read([c], base) == ((c - 'A') as int + 10, 1)
    ensures '0' <= c <= '9' && (c - '0') as int >= base ==> Read([c], base) == (0, 0)
    ensures 'a' <= c <= 'z' && (c - 'a') as int + 10 >= base ==> Read([c], base) == (0, 0)
    ensures 'A' <= c <= 'Z' && (c - 'A') as int + 10 >= base ==> Read([c], base) == (0, 0)
  {
    var s := [c];
    InRange(DigitValue(c));
    InRange(0);
    if '0' <= c <= '9' || 'a' <= c <= 'z' || 'A' <= c <= 'Z' {
      NoSignHere(s);
      assert Prefix(s, 0, base) == (base, 0);
      if IsDigit(c, base) {
        ReadsAll(s, 0, base);
        assert s[0..1] == "" + [c];
        ValueSnoc("", c, base);
      } else {
        StopsAt(s, 0, base);
        assert s[0..0] == "";
      }
    }
  }

  /** Nothing else begins a number: then nothing is read. */
  lemma NothingRead(s: string, base: int)
    requires s == "" || !(s[0] in " \t+-" || '0' <= s[0] <= '9' || 'a' <= s[0] <= 'z' || 'A' <= s[0] <= 'Z')
    ensures Read(s, base) == (0, 0)
  {
    NoSignHere(s);
    InRange(0);
    assert s[0..0] == "";
    assert forall b :: s != "" ==> !IsDigit(s[0], b);
  }

  /** printnum emits digits and lower-case letters only. */
  lemma {:induction false} LowerCaseDigits(n: nat, base: nat)
    requires 2 <= base <= 16
    ensures forall i | 0 <= i < |Digits(n, base)| ::
              '0' <= Digits(n, base)[i] <= '9' || 'a' <= Digits(n, base)[i] <= 'f'
  {
    LastDigit(n, base);
    if n >= base {
      LowerCaseDigits(n / base, base);
    }
  }
}
