/** gettoken of lab8/user/sh.c, which cuts a command line into tokens in place. */
module Shell {
  import opened Numerals

  datatype Pointer = Null | At(pos: nat)

  const WHITESPACE: string := " \t\r\n"
  const SYMBOLS: string := "<|>&;"

  predicate IsSpace(c: char) {
    c == ' ' || c == '\t' || c == '\r' || c == '\n'
  }

  predicate IsSymbol(c: char) {
    c == '<' || c == '|' || c == '>' || c == '&' || c == ';'
  }

  // ---------- a left-to-right tokenizer ----------

  /** A symbol, with its own character as kind, or a word, of kind w, at [at, end). */
  datatype Token = Token(kind: char, at: nat, end: nat)

  function SkipSpace(s: string, i: nat): (j: nat)
    requires i <= |s|
    ensures i <= j <= |s| && (j < |s| ==> !IsSpace(s[j]))
    ensures forall x | i <= x < j :: IsSpace(s[x])
    decreases |s| - i
  {
    if i < |s| && IsSpace(s[i]) then SkipSpace(s, i + 1) else i
  }

  /** Where the word that i lies in ends, if it is quoted at i or not. */
  function WordEnd(s: string, i: nat, quoted: bool): (e: nat)
    requires i <= |s|
    ensures i <= e <= |s|
    ensures i < |s| && (quoted || !(IsSpace(s[i]) || IsSymbol(s[i]))) ==> i < e
    decreases |s| - i
  {
    if i == |s| || (!quoted && (IsSpace(s[i]) || IsSymbol(s[i]))) then i
    else WordEnd(s, i + 1, if s[i] == '"' then !quoted else quoted)
  }

  function TokenAt(s: string, j: nat): (t: Token)
    requires j < |s| && !IsSpace(s[j])
    ensures t.at == j < t.end <= |s|
  {
    if IsSymbol(s[j]) then Token(s[j], j, j + 1) else Token('w', j, WordEnd(s, j, false))
  }

  function Tokens(s: string, i: nat): seq<Token>
    requires i <= |s|
    decreases |s| - i
  {
    var j := SkipSpace(s, i);
    if j == |s| then [] else [TokenAt(s, j)] + Tokens(s, TokenAt(s, j).end)
  }

  // ---------- what a token is, without an order of reading ----------

  ghost function Quotes(s: string, a: nat, b: nat): nat
    requires a <= b <= |s|
  {
    if a == b then 0 else Quotes(s, a, b - 1) + if s[b - 1] == '"' then 1 else 0
  }

  /** A blank or a symbol at x ends a word that began at a: there is an even number of quotes between. */
  ghost predicate Delimits(s: string, a: nat, x: nat)
    requires a <= x < |s|
  {
    (IsSpace(s[x]) || IsSymbol(s[x])) && Quotes(s, a, x) % 2 == 0
  }

  ghost predicate IsToken(s: string, t: Token) {
    && t.at < t.end <= |s|
    && if IsSymbol(s[t.at]) then t.kind == s[t.at] && t.end == t.at + 1
       else
         && t.kind == 'w'
         && (forall x | t.at <= x < t.end :: !Delimits(s, t.at, x))
         && (t.end < |s| ==> Delimits(s, t.at, t.end))
  }

  /** From position i on, the tokens ts and only blanks between them. */
  ghost predicate Tokenizes(s: string, i: nat, ts: seq<Token>)
    requires i <= |s|
    decreases |ts|
  {
    if ts == [] then forall x | i <= x < |s| :: IsSpace(s[x])
    else
      && i <= ts[0].at
      && IsToken(s, ts[0])
      && (forall x | i <= x < ts[0].at :: IsSpace(s[x]))
      && Tokenizes(s, ts[0].end, ts[1..])
  }

  lemma {:induction false} WordEndIsFirst(s: string, a: nat, i: nat)
    requires a <= i <= |s| && forall x | a <= x < i :: !Delimits(s, a, x)
    ensures var e := WordEnd(s, i, Quotes(s, a, i) % 2 == 1);
            && (forall x | a <= x < e :: !Delimits(s, a, x))
            && (e < |s| ==> Delimits(s, a, e))
    decreases |s| - i
  {
    var quoted := Quotes(s, a, i) % 2 == 1;
    if i < |s| && (quoted || !(IsSpace(s[i]) || IsSymbol(s[i]))) {
      assert Quotes(s, a, i + 1) == Quotes(s, a, i) + if s[i] == '"' then 1 else 0;
      WordEndIsFirst(s, a, i + 1);
    }
  }

  lemma TokenAtIsToken(s: string, j: nat)
    requires j < |s| && !IsSpace(s[j])
    ensures IsToken(s, TokenAt(s, j))
  {
    hide WordEnd;
    WordEndIsFirst(s, j, j);
  }

  lemma OnlyToken(s: string, t: Token, u: Token)
    requires IsToken(s, t) && IsToken(s, u) && t.at == u.at
    ensures t == u
  {
  }

  lemma TokenBegins(s: string, t: Token)
    requires IsToken(s, t)
    ensures !IsSpace(s[t.at])
  {
    if !IsSymbol(s[t.at]) {
      assert !Delimits(s, t.at, t.at);
    }
  }

  lemma {:induction false} SkipSpaceTo(s: string, i: nat, j: nat)
    requires i <= j <= |s| && (j < |s| ==> !IsSpace(s[j])) && forall x | i <= x < j :: IsSpace(s[x])
    ensures SkipSpace(s, i) == j
    decreases j - i
  {
    if i < j {
      SkipSpaceTo(s, i + 1, j);
    }
  }

  /** Every line has exactly one tokenization, and the left-to-right tokenizer finds it. */
  lemma {:induction false} TokensExact(s: string, i: nat, ts: seq<Token>)
    requires i <= |s|
    ensures Tokenizes(s, i, ts) <==> ts == Tokens(s, i)
    decreases |s| - i
  {
    hide IsSpace, IsSymbol, IsToken, TokenAt;
    var j := SkipSpace(s, i);
    if j < |s| {
      TokenAtIsToken(s, j);
      var t := TokenAt(s, j);
      if ts == [] {
        assert !IsSpace(s[j]);
      } else {
        TokensExact(s, t.end, ts[1..]);
        assert ts == [ts[0]] + ts[1..];
        if Tokenizes(s, i, ts) {
          TokenInside(s, ts[0]);
          TokenBegins(s, ts[0]);
          SkipSpaceTo(s, i, ts[0].at);
          OnlyToken(s, ts[0], t);
        }
      }
    } else if ts != [] && Tokenizes(s, i, ts) {
      TokenInside(s, ts[0]);
      TokenBegins(s, ts[0]);
    }
  }

  lemma TokenInside(s: string, t: Token)
    requires IsToken(s, t)
    ensures t.at < t.end <= |s|
  {
  }

  // ---------- which characters cut a line ----------

  /** A character that stands for itself in a word. */
  predicate Ordinary(c: char) {
    c !in " \t\r\n<|>&;\"\0"
  }

  lemma {:induction false} OrdinaryWord(s: string, i: nat, e: nat)
    requires i <= e <= |s| && forall x | i <= x < e :: Ordinary(s[x])
    ensures WordEnd(s, i, false) == WordEnd(s, e, false)
    decreases e - i
  {
    if i < e {
      OrdinaryWord(s, i + 1, e);
    }
  }

  /** A word without quotes is ended by a blank, a tab, a carriage return, a line feed or one of < | > & ;
      and by nothing else. */
  lemma WordsEnd(s: string, e: nat)
    requires 0 < e <= |s| && forall x | 0 <= x < e :: Ordinary(s[x])
    ensures |Tokens(s, 0)| >= 1 && Tokens(s, 0)[0].at == 0 && Tokens(s, 0)[0].kind == 'w'
    ensures e == |s| ==> Tokens(s, 0) == [Token('w', 0, e)]
    ensures e < |s| && s[e] in " \t\r\n<|>&;" ==> Tokens(s, 0)[0].end == e
    ensures e < |s| && s[e] !in " \t\r\n<|>&;" ==> Tokens(s, 0)[0].end > e
  {
    assert Ordinary(s[0]);
    assert SkipSpace(s, 0) == 0;
    OrdinaryWord(s, 0, e);
    assert Tokens(s, 0) == [TokenAt(s, 0)] + Tokens(s, TokenAt(s, 0).end);
    assert e == |s| ==> Tokens(s, e) == [];
  }

  /** Each of < | > & ; is a token by itself, wherever a token begins, and blanks of all four kinds are skipped. */
  lemma SymbolsStand(s: string, i: nat)
    requires i < |s|
    ensures s[i] in "<|>&;" ==> Tokens(s, i) == [Token(s[i], i, i + 1)] + Tokens(s, i + 1)
    ensures s[i] in " \t\r\n" ==> Tokens(s, i) == Tokens(s, i + 1)
  {
    assert s[i] in "<|>&;" ==> SkipSpace(s, i) == i;
  }

  /** Between two quotes nothing ends a word. */
  lemma {:induction false} QuotedText(s: string, i: nat, e: nat)
    requires i <= e < |s| && s[e] == '"' && forall x | i <= x < e :: s[x] != '"'
    ensures WordEnd(s, i, true) == WordEnd(s, e + 1, false)
    decreases e - i
  {
    if i < e {
      QuotedText(s, i + 1, e);
    }
  }

  lemma QuotedWord(s: string, e: nat)
    requires 0 < e < |s| && s[0] == '"' && s[e] == '"' && forall x | 0 < x < e :: s[x] != '"'
    ensures |Tokens(s, 0)| >= 1 && Tokens(s, 0)[0].at == 0 && Tokens(s, 0)[0].kind == 'w' && Tokens(s, 0)[0].end > e
  {
    assert SkipSpace(s, 0) == 0;
    QuotedText(s, 1, e);
  }

  /** For instance. */
  lemma TwoCommands()
    ensures Tokens("ls;pwd", 0) == [Token('w', 0, 2), Token(';', 2, 3), Token('w', 3, 6)]
  {
    var s := "ls;pwd";
    assert WordEnd(s, 0, false) == WordEnd(s, 2, false) == 2 by { OrdinaryWord(s, 0, 2); }
    assert WordEnd(s, 3, false) == WordEnd(s, 6, false) == 6 by { OrdinaryWord(s, 3, 6); }
    assert Tokens(s, 6) == [];
    assert Tokens(s, 3) == [Token('w', 3, 6)];
    assert Tokens(s, 2) == [Token(';', 2, 3)] + Tokens(s, 3);
  }

  // ---------- the line in memory ----------

  /** What a word is stored as: a blank in place of each quote. */
  function Unquoted(c: char): char {
    if c == '"' then ' ' else c
  }

  /** The position x of a line after the token t was cut out of it, and the blanks from i on before it. */
  ghost function CutChar(s: string, i: nat, t: Token, x: nat): char
    requires x < |s|
  {
    if t.at <= x < t.end && t.kind == 'w' then Unquoted(s[x])
    else if i <= x < t.end then '\0'
    else s[x]
  }

  method Strchr(s: string, c: char) returns (r: Pointer)
    requires CString(s)
    ensures r.Null? <==> c !in s
    ensures r.At? ==> r.pos < |s| && s[r.pos] == c && c !in s[..r.pos]
  {
    var i := 0;
    while CharAt(s, i) != '\0'
      invariant i <= |s| && c !in s[..i]
      decreases |s| - i
    {
      if CharAt(s, i) == c {
        return At(i);
      }
      i := i + 1;
    }
    return Null;
  }

  lemma Sets()
    ensures CString(WHITESPACE) && CString(SYMBOLS) && CString(WHITESPACE + SYMBOLS)
    ensures forall c :: c in WHITESPACE <==> IsSpace(c)
    ensures forall c :: c in SYMBOLS <==> IsSymbol(c)
  {
  }

  /** The line in memory still is s from i on. */
  ghost predicate Holds(line: array<char>, s: string, i: nat)
    reads line
  {
    && i <= |s| < line.Length
    && CString(s)
    && line[|s|] == '\0'
    && forall x | i <= x < |s| :: line[x] == s[x]
  }

  /** The loop that overwrites blanks. */
  method EraseSpace(line: array<char>, i: nat, ghost s: string) returns (j: nat)
    requires Holds(line, s, i)
    modifies line
    ensures j == SkipSpace(s, i) && Holds(line, s, j)
    ensures forall x | i <= x < j :: line[x] == '\0'
    ensures forall x | 0 <= x < line.Length && !(i <= x < j) :: line[x] == old(line[x])
  {
    Sets();
    j := i;
    var q := Strchr(WHITESPACE, line[j]);
    while q.At?
      invariant i <= j && Holds(line, s, j) && SkipSpace(s, i) == SkipSpace(s, j)
      invariant q.At? <==> IsSpace(line[j])
      invariant forall x | i <= x < j :: line[x] == '\0'
      invariant forall x | 0 <= x < line.Length && !(i <= x < j) :: line[x] == old(line[x])
      decreases |s| - j
    {
      line[j] := '\0';
      j := j + 1;
      q := Strchr(WHITESPACE, line[j]);
    }
  }

  /** The loop that passes over a word and overwrites its quotes. */
  method PassWord(line: array<char>, i: nat, ghost s: string) returns (j: nat)
    requires Holds(line, s, i)
    modifies line
    ensures j == WordEnd(s, i, false) && Holds(line, s, j)
    ensures forall x | i <= x < j :: line[x] == Unquoted(s[x])
    ensures forall x | 0 <= x < line.Length && !(i <= x < j) :: line[x] == old(line[x])
  {
    Sets();
    j := i;
    var flag := false;
    var q := Strchr(WHITESPACE + SYMBOLS, line[j]);
    while line[j] != '\0' && (flag || q.Null?)
      invariant i <= j && Holds(line, s, j) && WordEnd(s, i, false) == WordEnd(s, j, flag)
      invariant q.At? <==> IsSpace(line[j]) || IsSymbol(line[j])
      invariant forall x | i <= x < j :: line[x] == Unquoted(s[x])
      invariant forall x | 0 <= x < line.Length && !(i <= x < j) :: line[x] == old(line[x])
      decreases |s| - j
    {
      if line[j] == '"' {
        line[j] := ' ';
        flag := !flag;
      }
      j := j + 1;
      q := Strchr(WHITESPACE + SYMBOLS, line[j]);
    }
  }

  /** gettoken: token 0 at the end of the line, else the next token, at p2. */
  method Gettoken(line: array<char>, p1: Pointer, p2: Pointer, ghost s: string)
      returns (token: char, q1: Pointer, q2: Pointer)
    requires p1.At? ==> Holds(line, s, p1.pos)
    modifies line
    ensures p1.Null? ==> token == '\0' && q1 == p1 && q2 == p2 && line[..] == old(line[..])
    ensures p1.At? ==> line[|s|..] == old(line[|s|..]) && line[..p1.pos] == old(line[..p1.pos])
    ensures p1.At? && SkipSpace(s, p1.pos) == |s| ==>
      && token == '\0' && q1 == p1 && q2 == p2
      && forall x | p1.pos <= x < |s| :: line[x] == '\0'
    ensures p1.At? && SkipSpace(s, p1.pos) < |s| ==>
      var t := TokenAt(s, SkipSpace(s, p1.pos));
      && token == t.kind != '\0'
      && q2 == At(t.at)
      && q1 == (if t.end < |s| then At(t.end) else Null)
      && Holds(line, s, t.end)
      && forall x | p1.pos <= x < |s| :: line[x] == CutChar(s, p1.pos, t, x)
  {
    hide SkipSpace, WordEnd, Unquoted;
    Sets();
    if p1.Null? { return '\0', p1, p2; }
    var i := EraseSpace(line, p1.pos, s);
    if line[i] == '\0' { return '\0', p1, p2; }
    token, q2 := 'w', At(i);
    var q := Strchr(SYMBOLS, line[i]);
    if q.At? {
      token := line[i];
      line[i] := '\0';
      i := i + 1;
    } else {
      i := PassWord(line, i, s);
    }
    q1 := if line[i] != '\0' then At(i) else Null;
  }

  // ---------- draining a line ----------

  ghost predicate InWord(ts: seq<Token>, x: nat) {
    exists j | 0 <= j < |ts| :: ts[j].kind == 'w' && ts[j].at <= x < ts[j].end
  }

  /** The position x of a line out of which the tokens ts were cut. */
  ghost function DrainedChar(s: string, ts: seq<Token>, x: nat): char
    requires x < |s|
  {
    if InWord(ts, x) then Unquoted(s[x]) else '\0'
  }

  function UnquotedText(text: string): string {
    seq(|text|, i requires 0 <= i < |text| => Unquoted(text[i]))
  }

  /** Quotes are stored as blanks, all else as it is. */
  lemma QuotesAreBlanks(text: string)
    ensures |UnquotedText(text)| == |text|
    ensures forall i | 0 <= i < |text| :: UnquotedText(text)[i] == if text[i] == '"' then ' ' else text[i]
  {
  }

  /** The C string at position a. */
  ghost predicate ReadsAs(line: array<char>, a: nat, text: string)
    reads line
  {
    a + |text| < line.Length && line[a..a + |text|] == text && CString(text) && line[a + |text|] == '\0'
  }

  /** Tokens are inside the line and one behind the other. */
  ghost predicate Ordered(s: string, i: nat, ts: seq<Token>) {
    && (forall j | 0 <= j < |ts| :: i <= ts[j].at && IsToken(s, ts[j]))
    && forall j, k | 0 <= j < k < |ts| :: ts[j].end <= ts[k].at
  }

  lemma {:induction false} TokensOrdered(s: string, i: nat)
    requires i <= |s|
    ensures Ordered(s, i, Tokens(s, i))
    decreases |s| - i
  {
    hide IsToken, TokenAt, IsSpace;
    var j := SkipSpace(s, i);
    if j < |s| {
      var t := TokenAt(s, j);
      TokenAtIsToken(s, j);
      TokensOrdered(s, t.end);
      var rest := Tokens(s, t.end);
      assert forall k | 1 <= k < |rest| + 1 :: ([t] + rest)[k] == rest[k - 1];
    }
  }

  /** What follows a word is in no word. */
  lemma BehindWord(s: string, ts: seq<Token>, j: nat)
    requires Ordered(s, 0, ts) && j < |ts| && ts[j].kind == 'w' && ts[j].end < |s|
    ensures !InWord(ts, ts[j].end)
  {
    hide Ordered;
    forall k: nat | k < |ts| && ts[k].kind == 'w' ensures !(ts[k].at <= ts[j].end < ts[k].end) {
      NotInWord(s, ts, j, k);
    }
  }

  lemma NotInWord(s: string, ts: seq<Token>, j: nat, k: nat)
    requires Ordered(s, 0, ts) && j < |ts| && k < |ts| && ts[j].kind == 'w' && ts[j].end < |s| && ts[k].kind == 'w'
    ensures !(ts[k].at <= ts[j].end < ts[k].end)
  {
    if k < j {
      assert ts[k].end <= ts[j].at;
    } else if j < k {
      assert ts[j].end <= ts[k].at;
      assert Delimits(s, ts[j].at, ts[j].end);
      assert !Delimits(s, ts[k].at, ts[k].at);
    }
  }

  /** A drained line holds each word as a C string, with a blank for each quote. */
  lemma WordReads(line: array<char>, s: string, j: nat)
    requires Holds(line, s, |s|) && forall x | 0 <= x < |s| :: line[x] == DrainedChar(s, Tokens(s, 0), x)
    requires j < |Tokens(s, 0)| && Tokens(s, 0)[j].kind == 'w'
    ensures var t := Tokens(s, 0)[j];
            t.at <= t.end <= |s| && ReadsAs(line, t.at, UnquotedText(s[t.at..t.end]))
  {
    hide Tokens, InWord;
    TokensOrdered(s, 0);
    var ts := Tokens(s, 0);
    var t := ts[j];
    forall x | t.at <= x < t.end ensures line[x] == Unquoted(s[x]) {
      InThisWord(ts, j, x);
    }
    if t.end < |s| {
      BehindWord(s, ts, j);
    }
    var text := UnquotedText(s[t.at..t.end]);
    assert line[t.at..t.at + |text|] == text;
  }

  lemma InThisWord(ts: seq<Token>, j: nat, x: nat)
    requires j < |ts| && ts[j].kind == 'w' && ts[j].at <= x < ts[j].end
    ensures InWord(ts, x)
  {
  }

  /** One more token cut out. */
  lemma Cut(s: string, i: nat, k: nat, x: nat)
    requires i <= x < |s| && k < |Tokens(s, 0)| && Tokens(s, i) == Tokens(s, 0)[k..]
    requires forall j | 0 <= j < k :: Tokens(s, 0)[j].end <= i
    ensures var ts := Tokens(s, 0); x < ts[k].end ==> CutChar(s, i, ts[k], x) == DrainedChar(s, ts[..k + 1], x)
  {
    hide Tokens, Unquoted;
    var ts := Tokens(s, 0);
    if ts[k].at <= x < ts[k].end && ts[k].kind == 'w' {
      assert ts[..k + 1][k] == ts[k];
    }
  }

  lemma Kept(s: string, i: nat, k: nat, x: nat)
    requires x < i <= |s| && k < |Tokens(s, 0)| && i <= Tokens(s, 0)[k].at
    ensures DrainedChar(s, Tokens(s, 0)[..k], x) == DrainedChar(s, Tokens(s, 0)[..k + 1], x)
  {
    hide Tokens, Unquoted;
    var ts := Tokens(s, 0);
    if InWord(ts[..k], x) {
      var j :| 0 <= j < k && ts[j].kind == 'w' && ts[j].at <= x < ts[j].end;
      assert ts[..k + 1][j] == ts[j];
    }
    if InWord(ts[..k + 1], x) {
      var j :| 0 <= j < k + 1 && ts[j].kind == 'w' && ts[j].at <= x < ts[j].end;
      assert j < k && ts[..k][j] == ts[j];
    }
  }

  /** How far a line is drained: k tokens are out, and the rest begins at i. */
  ghost predicate Drained(m: seq<char>, s: string, i: nat, k: nat) {
    && i <= |s| < |m|
    && k <= |Tokens(s, 0)|
    && Tokens(s, i) == Tokens(s, 0)[k..]
    && (forall j | 0 <= j < k :: Tokens(s, 0)[j].end <= i)
    && forall x | 0 <= x < i :: m[x] == DrainedChar(s, Tokens(s, 0)[..k], x)
  }

  lemma TokensFrom(s: string, i: nat)
    requires i <= |s|
    ensures SkipSpace(s, i) == |s| ==> Tokens(s, i) == []
    ensures SkipSpace(s, i) < |s| ==>
      var t := TokenAt(s, SkipSpace(s, i)); Tokens(s, i) == [t] + Tokens(s, t.end)
  {
  }

  lemma DrainStep(before: seq<char>, m: seq<char>, s: string, i: nat, k: nat)
    requires Drained(before, s, i, k) && |m| == |before| && m[..i] == before[..i] && SkipSpace(s, i) < |s|
    requires forall x | i <= x < |s| :: m[x] == CutChar(s, i, TokenAt(s, SkipSpace(s, i)), x)
    ensures k < |Tokens(s, 0)| && Tokens(s, 0)[k] == TokenAt(s, SkipSpace(s, i))
    ensures Drained(m, s, Tokens(s, 0)[k].end, k + 1)
  {
    hide Tokens, SkipSpace, TokenAt, CutChar, DrainedChar, IsSpace;
    TokensFrom(s, i);
    var ts := Tokens(s, 0);
    var t := TokenAt(s, SkipSpace(s, i));
    assert ts[k..][0] == t && ts[k..][1..] == ts[k + 1..];
    forall x | 0 <= x < t.end ensures m[x] == DrainedChar(s, ts[..k + 1], x) {
      if x < i {
        assert m[..i][x] == before[..i][x];
        Kept(s, i, k, x);
      } else {
        Cut(s, i, k, x);
      }
    }
  }

  lemma DrainEnds(before: seq<char>, m: seq<char>, s: string, i: nat, k: nat)
    requires Drained(before, s, i, k) && |m| == |before| && m[..i] == before[..i] && SkipSpace(s, i) == |s|
    requires forall x | i <= x < |s| :: m[x] == '\0'
    ensures k == |Tokens(s, 0)| && forall x | 0 <= x < |s| :: m[x] == DrainedChar(s, Tokens(s, 0), x)
  {
    hide Tokens, SkipSpace, Unquoted;
    TokensFrom(s, i);
    var ts := Tokens(s, 0);
    assert ts[..k] == ts;
    assert forall x | 0 <= x < i :: m[..i][x] == before[..i][x];
  }

  /** Calls gettoken until it returns 0. */
  method Drain(line: array<char>, ghost s: string) returns (ts: seq<(char, nat)>)
    requires Holds(line, s, 0)
    modifies line
    ensures |ts| == |Tokens(s, 0)|
    ensures forall j | 0 <= j < |ts| :: ts[j] == (Tokens(s, 0)[j].kind, Tokens(s, 0)[j].at)
    ensures forall x | 0 <= x < |s| :: line[x] == DrainedChar(s, Tokens(s, 0), x)
    ensures line[|s|..] == old(line[|s|..])
    ensures forall j | 0 <= j < |ts| && ts[j].0 == 'w' ::
      var t := Tokens(s, 0)[j]; t.at <= t.end <= |s| && ReadsAs(line, ts[j].1, UnquotedText(s[t.at..t.end]))
  {
    hide Tokens, TokenAt, SkipSpace, DrainedChar, CutChar, UnquotedText, ReadsAs;
    var p1, p2 := At(0), Null;
    ts := [];
    ghost var i: nat := 0;
    ghost var before := line[..];
    while true
      invariant Holds(line, s, i) && p1 == (if i < |s| || i == 0 then At(i) else Null)
      invariant before == line[..] && Drained(before, s, i, |ts|)
      invariant forall j | 0 <= j < |ts| :: ts[j] == (Tokens(s, 0)[j].kind, Tokens(s, 0)[j].at)
      invariant line[|s|..] == old(line[|s|..])
      decreases |s| - i
    {
      var token;
      token, p1, p2 := Gettoken(line, p1, p2, s);
      if token == '\0' {
        DrainEnds(before, line[..], s, i, |ts|);
        break;
      }
      DrainStep(before, line[..], s, i, |ts|);
      i, before := Tokens(s, 0)[|ts|].end, line[..];
      ts := ts + [(token, p2.pos)];
    }
    forall j | 0 <= j < |ts| && ts[j].0 == 'w'
      ensures var t := Tokens(s, 0)[j]; t.at <= t.end <= |s| && ReadsAs(line, ts[j].1, UnquotedText(s[t.at..t.end]))
    {
      WordReads(line, s, j);
    }
  }
}
