/** jbash.parser.JBashParser.parseCommand: the lexemes of the tokens of one
    command line, concatenated in token order and split on the separator
    character '\0' that every whitespace run became. */
module JBashParser {
  import opened Outcomes
  import opened JavaText
  import opened Tokens
  import opened JBashLexer

  /** The separator the lexer writes for a run of blanks. */
  const Separator: char := '\0'

  /** The reduce of the lexemes with "" as identity and concatenation as the step.
      Concatenation is associative, so the fold order of the stream is immaterial. */
  function ConcatLexemes(ts: seq<Token>): string
  {
    if |ts| == 0 then "" else ts[0].lexeme + ConcatLexemes(ts[1..])
  }

  /** parseCommand: no arguments for empty input; otherwise the concatenated lexemes
      split with String.split semantics, or the lexer's failure. */
  function ParseCommand(input: string): (r: Result<seq<string>>)
    ensures r.Ok? ==> forall k :: 0 <= k < |r.value| ==> Separator !in r.value[k]
  {
    if |input| == 0 then Ok([])
    else
      var ts :- Lex(input);
      Ok(JavaSplit(ConcatLexemes(ts), Separator))
  }

  /** The arguments are the concatenated lexemes cut at each separator: without a
      separator they are one argument (the text unchanged); with one, the pieces
      joined by separators give the text back up to the separators trailing it,
      and no piece is empty at the end. A failure of the lexer is returned as it
      is, with no partial list. */
  lemma ParseCommandShape(input: string)
    ensures |input| == 0 ==> ParseCommand(input) == Ok([])
    ensures |input| > 0 && !Lex(input).Ok? ==> ParseCommand(input) == Lex(input).PropagateFailure()
    ensures |input| > 0 && Lex(input).Ok? ==>
      var text := ConcatLexemes(Lex(input).value);
      var args := ParseCommand(input).value;
      (Separator !in text ==> args == [text]) &&
      (Separator in text ==>
         (forall k :: 0 <= k < |args| ==> Separator !in args[k]) &&
         (|args| > 0 ==> args[|args| - 1] != "") &&
         exists n: nat :: text == JoinWith(args, Separator) + Repeat(Separator, n))
  {
    if |input| > 0 && Lex(input).Ok? {
      var text := ConcatLexemes(Lex(input).value);
      ParseCommandLexed(input, text);
      if Separator in text {
        JavaSplitShape(text, Separator);
      }
    }
  }

  lemma ParseCommandLexed(input: string, text: string)
    requires |input| > 0 && Lex(input).Ok? && text == ConcatLexemes(Lex(input).value)
    ensures ParseCommand(input) == Ok(JavaSplit(text, Separator))
  {
  }

  /** A character that forms a word by itself: not a target of the word scan, not a
      tab (which would start a separator run), and not the separator. */
  predicate PlainChar(c: char)
  {
    !IsTarget(SpecialChars, c) && c != '\t' && c != Separator
  }

  predicate PlainWord(w: string)
  {
    |w| > 0 && forall i :: 0 <= i < |w| ==> PlainChar(w[i])
  }

  /** A command of blanks only lexes to one separator token and EOF. */
  lemma BlanksLex(input: string, n: nat)
    requires n == |input| > 0 && forall k :: 0 <= k < n ==> IsBlank(input[k])
    ensures Lex(input) == Ok([Token(Whitespace, n, "\0")] + [Token(EOF, n, "")])
  {
    var t0 := Token(Whitespace, n, "\0");
    var t1 := Token(EOF, n, "");
    TokenAtBlanks(input, 0, n);
    TokenAtEnd(input);
    LexFromStep(input, 0, t0, n);
    LexFromLast(input, n, t1, n);
  }

  /** A command of blanks only gives no arguments: its one separator token is a
      trailing empty piece, which the split drops. */
  lemma BlanksOnly(input: string)
    requires |input| > 0 && forall k :: 0 <= k < |input| ==> IsBlank(input[k])
    ensures ParseCommand(input) == Ok([])
  {
    var n := |input|;
    var t0 := Token(Whitespace, n, "\0");
    var t1 := Token(EOF, n, "");
    BlanksLex(input, n);
    ConcatCons(t0, [t1]);
    ConcatCons(t1, []);
    assert ConcatLexemes([t0] + [t1]) == "\0";
    assert SplitAll("\0", Separator) == ["", ""] by {
      assert "\0"[1..] == "";
    }
  }

  lemma ConcatCons(t: Token, rest: seq<Token>)
    ensures ConcatLexemes([t] + rest) == t.lexeme + ConcatLexemes(rest)
  {
    assert ([t] + rest)[1..] == rest;
  }

  lemma JoinWithCons(ws: seq<string>, sep: char)
    requires |ws| > 1
    ensures JoinWith(ws, sep) == ws[0] + [sep] + JoinWith(ws[1..], sep)
  {
  }

  /** The first character of the joined words is the first character of the first word. */
  lemma JoinWithHead(ws: seq<string>, sep: char)
    requires |ws| > 0 && |ws[0]| > 0
    ensures |JoinWith(ws, sep)| > 0 && JoinWith(ws, sep)[0] == ws[0][0]
  {
    if |ws| > 1 {
      JoinWithCons(ws, sep);
    }
  }

  /** A plain character starts a word token: it is none of the characters the
      scanner switches on. */
  lemma PlainStartsWord(c: char)
    requires PlainChar(c)
    ensures !(c in "\n\\> \t$'(){}[]" || c == EscapedSentinel) && !IsBlank(c)
  {
    SpecialTarget(c);
  }

  /** Where the first of the joined words ends: at the end of the text when it is
      the only one, before a separator otherwise. */
  lemma JoinFirst(s: string, cur: nat, ws: seq<string>, sep: char)
    requires cur <= |s| && s[cur..] == JoinWith(ws, sep) && |ws| > 0
    ensures cur + |ws[0]| <= |s| && s[cur..cur + |ws[0]|] == ws[0]
    ensures |ws| == 1 ==> cur + |ws[0]| == |s|
    ensures |ws| > 1 ==> cur + |ws[0]| < |s| && s[cur + |ws[0]|] == sep
  {
    var e := cur + |ws[0]|;
    if |ws| > 1 {
      JoinWithCons(ws, sep);
      assert s[e] == s[cur..][|ws[0]|];
    }
    assert s[cur..e] == s[cur..][..|ws[0]|];
  }

  /** A run of plain characters ended by a space or the end of input is one
      word token (or keyword) that keeps its text. */
  lemma PlainRunToken(s: string, cur: nat, e: nat)
    requires cur < e <= |s| && forall k :: cur <= k < e ==> PlainChar(s[k])
    requires e < |s| ==> s[e] == ' '
    ensures TokenAt(s, cur) == Ok((Token(KeywordType(s[cur..e]), e, s[cur..e]), e))
    ensures !IsTerminal(KeywordType(s[cur..e]))
  {
    PlainStartsWord(s[cur]);
    if e < |s| {
      SpecialTarget(' ');
      SpecialTarget(s[e - 1]);
    }
    assert forall k :: cur < k < e ==> !IsTarget(SpecialChars, s[k]);
    TokenAtWord(s, cur, e);
    KeywordTypeExact(s[cur..e]);
  }

  /** The first of the plain words at the cursor is a run of plain characters
      ended by a space, or by the end of input when it is the last word. */
  lemma PlainWordStep(s: string, cur: nat, ws: seq<string>)
    requires cur <= |s| && s[cur..] == JoinWith(ws, ' ')
    requires |ws| > 0 && forall k :: 0 <= k < |ws| ==> PlainWord(ws[k])
    ensures cur < cur + |ws[0]| <= |s| && s[cur..cur + |ws[0]|] == ws[0]
    ensures |ws| == 1 ==> cur + |ws[0]| == |s|
    ensures |ws| > 1 ==> cur + |ws[0]| < |s| && s[cur + |ws[0]|] == ' '
    ensures forall k :: cur <= k < cur + |ws[0]| ==> PlainChar(s[k])
  {
    var w := ws[0];
    assert PlainWord(w);
    var e := cur + |w|;
    JoinFirst(s, cur, ws, ' ');
    forall k | cur <= k < e
      ensures PlainChar(s[k])
    {
      assert s[k] == s[cur..e][k - cur];
    }
  }

  /** The space after a plain word that is not the last is one separator token,
      and the remaining words follow it. */
  lemma PlainSpaceStep(s: string, cur: nat, ws: seq<string>)
    requires cur <= |s| && s[cur..] == JoinWith(ws, ' ')
    requires |ws| > 1 && forall k :: 0 <= k < |ws| ==> PlainWord(ws[k])
    requires cur + |ws[0]| < |s| && s[cur + |ws[0]|] == ' '
    ensures var e := cur + |ws[0]|;
      e + 1 <= |s| && s[e + 1..] == JoinWith(ws[1..], ' ') &&
      TokenAt(s, e) == Ok((Token(Whitespace, e + 1, "\0"), e + 1))
  {
    var e := cur + |ws[0]|;
    var ws' := ws[1..];
    JoinWithCons(ws, ' ');
    assert s[e + 1..] == JoinWith(ws', ' ') by {
      assert s[e + 1..] == s[cur..][|ws[0]| + 1..];
    }
    assert PlainWord(ws'[0]);
    JoinWithHead(ws', ' ');
    assert s[e + 1] == s[e + 1..][0];
    PlainStartsWord(s[e + 1]);
    TokenAtBlanks(s, e, e + 1);
  }

  /** The lexemes of a word, a separator and the tokens of the remaining words
      concatenate to all the words joined by separators. */
  lemma ConcatWordThenRest(t: Token, sp: Token, r: Result<seq<Token>>, rest: Result<seq<Token>>, ws: seq<string>)
    requires |ws| > 1 && t.lexeme == ws[0] && sp.lexeme == [Separator]
    requires r == Prefixed([t] + [sp], rest)
    requires rest.Ok? && ConcatLexemes(rest.value) == JoinWith(ws[1..], Separator)
    ensures r.Ok? && ConcatLexemes(r.value) == JoinWith(ws, Separator)
  {
    assert r.value == [t] + ([sp] + rest.value);
    ConcatCons(t, [sp] + rest.value);
    ConcatCons(sp, rest.value);
    JoinWithCons(ws, Separator);
    ConcatAssoc(ws[0], [Separator], JoinWith(ws[1..], Separator));
  }

  /** The last plain word is one token followed by EOF. */
  lemma LexLastPlainWord(s: string, cur: nat, ws: seq<string>)
    requires cur <= |s| && s[cur..] == JoinWith(ws, ' ')
    requires |ws| == 1 && PlainWord(ws[0])
    ensures LexFrom(s, cur).Ok?
    ensures ConcatLexemes(LexFrom(s, cur).value) == JoinWith(ws, Separator)
  {
    var w := ws[0];
    var e := cur + |w|;
    PlainWordStep(s, cur, ws);
    PlainRunToken(s, cur, e);
    var t := Token(KeywordType(w), e, w);
    LexFromStep(s, cur, t, e);
    var eof := Token(EOF, e, "");
    TokenAtEnd(s);
    LexFromLast(s, e, eof, e);
    assert LexFrom(s, cur) == Ok([t] + [eof]);
    ConcatCons(t, [eof]);
    ConcatCons(eof, []);
  }

  /** The scan of a plain word that is not the last: the word token, the
      separator token, and then the scan of the remaining words. */
  lemma PlainPairStep(s: string, cur: nat, ws: seq<string>, e: nat, next: nat)
    requires cur <= |s| && s[cur..] == JoinWith(ws, ' ')
    requires |ws| > 1 && forall k :: 0 <= k < |ws| ==> PlainWord(ws[k])
    requires e == cur + |ws[0]| && next == e + 1
    ensures next <= |s| && s[next..] == JoinWith(ws[1..], ' ')
    ensures LexFrom(s, cur) == Prefixed([Token(KeywordType(ws[0]), e, ws[0])] + [Token(Whitespace, next, "\0")], LexFrom(s, next))
  {
    var t := Token(KeywordType(ws[0]), e, ws[0]);
    var sp := Token(Whitespace, next, "\0");
    PlainPairTokens(s, cur, ws, e, next);
    LexFromStep(s, cur, t, e);
    LexFromStep(s, e, sp, next);
    PrefixedTwice([t], [sp], LexFrom(s, next));
  }

  /** The two scan steps over a plain word that is not the last and the space after it. */
  lemma PlainPairTokens(s: string, cur: nat, ws: seq<string>, e: nat, next: nat)
    requires cur <= |s| && s[cur..] == JoinWith(ws, ' ')
    requires |ws| > 1 && forall k :: 0 <= k < |ws| ==> PlainWord(ws[k])
    requires e == cur + |ws[0]| && next == e + 1
    ensures next <= |s| && s[next..] == JoinWith(ws[1..], ' ')
    ensures TokenAt(s, cur) == Ok((Token(KeywordType(ws[0]), e, ws[0]), e))
    ensures TokenAt(s, e) == Ok((Token(Whitespace, next, "\0"), next))
    ensures !IsTerminal(KeywordType(ws[0]))
  {
    PlainWordStep(s, cur, ws);
    PlainRunToken(s, cur, e);
    PlainSpaceStep(s, cur, ws);
  }

  lemma PrefixedTwice(a: seq<Token>, b: seq<Token>, r: Result<seq<Token>>)
    ensures Prefixed(a, Prefixed(b, r)) == Prefixed(a + b, r)
  {
    if r.Ok? {
      assert a + (b + r.value) == a + b + r.value;
    }
  }

  lemma PlainTail(ws: seq<string>)
    requires |ws| > 0 && forall k :: 0 <= k < |ws| ==> PlainWord(ws[k])
    ensures forall k :: 0 <= k < |ws[1..]| ==> PlainWord(ws[1..][k])
  {
    forall k | 0 <= k < |ws[1..]| ensures PlainWord(ws[1..][k]) {
      assert ws[1..][k] == ws[k + 1];
    }
  }

  /** Plain words separated by single spaces, scanned from the first one: every word
      is one token that keeps its text, every space one separator token, so the
      lexemes concatenate to the words joined by separators. */
  lemma {:induction false} LexPlainWords(s: string, cur: nat, ws: seq<string>)
    requires cur <= |s| && s[cur..] == JoinWith(ws, ' ')
    requires |ws| > 0 && forall k :: 0 <= k < |ws| ==> PlainWord(ws[k])
    ensures LexFrom(s, cur).Ok?
    ensures ConcatLexemes(LexFrom(s, cur).value) == JoinWith(ws, Separator)
    decreases |ws|
  {
    if |ws| == 1 {
      LexLastPlainWord(s, cur, ws);
    } else {
      var e := cur + |ws[0]|;
      var next := e + 1;
      PlainPairStep(s, cur, ws, e, next);
      PlainTail(ws);
      LexPlainWords(s, next, ws[1..]);
      ConcatWordThenRest(Token(KeywordType(ws[0]), e, ws[0]), Token(Whitespace, next, "\0"),
                         LexFrom(s, cur), LexFrom(s, next), ws);
    }
  }

  /** Plain words separated by single spaces come back as exactly those words. */
  lemma PlainWords(ws: seq<string>)
    requires |ws| > 0 && forall k :: 0 <= k < |ws| ==> PlainWord(ws[k])
    ensures ParseCommand(JoinWith(ws, ' ')) == Ok(ws)
  {
    var s := JoinWith(ws, ' ');
    assert |s| > 0 by {
      if |ws| > 1 { JoinWithCons(ws, ' '); }
    }
    assert s[0..] == s;
    LexPlainWords(s, 0, ws);
    assert forall k :: 0 <= k < |ws| ==> Separator !in ws[k] && ws[k] != "" by {
      forall k | 0 <= k < |ws| ensures Separator !in ws[k] && ws[k] != "" {
        assert PlainWord(ws[k]);
      }
    }
    JavaSplitJoin(ws, Separator);
  }

  lemma PlainAscii(w: string)
    requires |w| > 0 && forall i :: 0 <= i < |w| ==> 'a' <= w[i] <= 'z'
    ensures PlainWord(w)
  {
    forall i | 0 <= i < |w| ensures PlainChar(w[i]) {
      SpecialTarget(w[i]);
    }
  }

  /** "april and june" gives the three words. */
  lemma AprilAndJune()
    ensures ParseCommand("april and june") == Ok(["april", "and", "june"])
  {
    var ws := ["april", "and", "june"];
    PlainAscii("april");
    PlainAscii("and");
    PlainAscii("june");
    assert JoinWith(ws, ' ') == "april and june" by {
      assert ws[1..] == ["and", "june"];
      assert ws[1..][1..] == ["june"];
    }
    PlainWords(ws);
  }

  /** The tokens of "'april'and'june'": two string literals around a word, then EOF. */
  lemma QuotedTokens(s: string)
    requires s == "'april'and'june'"
    ensures Lex(s) == Ok([Token(StringLit, 7, "april"), Token(Word, 10, "and"),
                          Token(StringLit, 16, "june"), Token(EOF, 16, "")])
  {
    var t0 := Token(StringLit, 7, "april");
    var t1 := Token(Word, 10, "and");
    var t2 := Token(StringLit, 16, "june");
    var t3 := Token(EOF, 16, "");
    QuotedSteps(s);
    TokenAtEnd(s);
    LexFromLast(s, 16, t3, 16);
    assert |s| == 16;
    LexFromLast(s, 16, t3, 16);
    LexFromStep(s, 10, t2, 16);
    assert [t2] + [t3] == [t2, t3];
    assert LexFrom(s, 10) == Ok([t2, t3]);
    LexFromStep(s, 7, t1, 10);
    assert [t1] + [t2, t3] == [t1, t2, t3];
    assert LexFrom(s, 7) == Ok([t1, t2, t3]);
    LexFromStep(s, 0, t0, 7);
    assert [t0] + [t1, t2, t3] == [t0, t1, t2, t3];
    assert LexFrom(s, 0) == Ok([t0, t1, t2, t3]);
  }

  lemma QuotedSteps(s: string)
    requires s == "'april'and'june'"
    ensures |s| == 16
    ensures TokenAt(s, 0) == Ok((Token(StringLit, 7, "april"), 7))
    ensures TokenAt(s, 7) == Ok((Token(Word, 10, "and"), 10))
    ensures TokenAt(s, 10) == Ok((Token(StringLit, 16, "june"), 16))
  {
    QuotedFirst(s);
    QuotedWord(s);
    QuotedLast(s);
  }

  lemma QuotedFirst(s: string)
    requires s == "'april'and'june'"
    ensures TokenAt(s, 0) == Ok((Token(StringLit, 7, "april"), 7))
  {
    assert s[1..6] == "april";
    TokenAtQuote(s, 0, 6);
  }

  lemma QuotedWord(s: string)
    requires s == "'april'and'june'"
    ensures TokenAt(s, 7) == Ok((Token(Word, 10, "and"), 10))
  {
    QuotedWordChars(s);
    TokenAtWord(s, 7, 10);
    KeywordTypeExact("and");
  }

  lemma QuotedWordChars(s: string)
    requires s == "'april'and'june'"
    ensures |s| == 16 && s[7..10] == "and" && s[7] == 'a' && s[9] == 'd'
    ensures !IsTarget(SpecialChars, s[8]) && !IsTarget(SpecialChars, s[9]) && IsTarget(SpecialChars, s[10])
  {
    SpecialTarget(s[8]);
    SpecialTarget(s[9]);
    SpecialTarget(s[10]);
  }

  lemma QuotedLast(s: string)
    requires s == "'april'and'june'"
    ensures TokenAt(s, 10) == Ok((Token(StringLit, 16, "june"), 16))
  {
    assert s[11..15] == "june";
    TokenAtQuote(s, 10, 15);
  }

  /** "'april'and'june'": two quoted words and a bare word with no blanks between
      them fuse into one argument. */
  lemma QuotedConcatenation(s: string)
    requires s == "'april'and'june'"
    ensures ParseCommand(s) == Ok(["aprilandjune"])
  {
    var t0 := Token(StringLit, 7, "april");
    var t1 := Token(Word, 10, "and");
    var t2 := Token(StringLit, 16, "june");
    var t3 := Token(EOF, 16, "");
    QuotedTokens(s);
    ConcatCons(t0, [t1, t2, t3]);
    ConcatCons(t1, [t2, t3]);
    ConcatCons(t2, [t3]);
    ConcatCons(t3, []);
    assert ConcatLexemes([t0, t1, t2, t3]) == "aprilandjune";
    assert Separator !in "aprilandjune";
  }
}
