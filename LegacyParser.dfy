/** The older tokenizer snapshot, Parser.JBashParser: the same cursor style as the
    jbash.parser lexer over a char array, with these differences.  A failed seek
    leaves the cursor at the end of input; match reads the current character
    without an end check; blanks are skipped rather than emitted; a quoted token
    keeps its quotes; there is no quote pre-pass and no EOL token, and the token
    list ends at the first EOF. */
module LegacyParser {
  import opened Outcomes
  import opened JavaText
  import opened Tokens
  import opened JBashLexer

  /** The characters that end an unquoted word in this snapshot. */
  const OldSpecialChars: seq<char> := ['{', '}', '[', ']', '(', ')', '$', ' ']

  /** What nextToken returns when called with start == current == cur: the token
      and the new cursor, or the failure.  Blanks are skipped by recursion. */
  function OldTokenAt(s: string, cur: nat): (r: Result<(Token, nat)>)
    requires cur <= |s|
    decreases |s| - cur
    ensures r.Ok? ==> cur <= r.value.1 <= |s|
    ensures r.Ok? && r.value.0.kind != EOF ==> cur < r.value.1
    ensures r.Ok? ==> r.value.0.kind != Whitespace
    ensures r.OutOfBounds? ==> r.index == |s|
    ensures r.Ok? && r.value.0.kind == EOF ==> r.value == (Token(EOF, |s|, ""), |s|)
  {
    if cur == |s| then Ok((Token(EOF, cur, ""), cur))
    else match s[cur]
      case ' ' | '\t' =>
        var e := RunEnd(s, cur);
        if e == |s| then OutOfBounds(|s|)  // match peeks at str[length]
        else OldTokenAt(s, e)
      case '$' => Ok((Token(Dollar, cur, "$"), cur + 1))
      case '"' | '\'' => OldQuotedToken(s, cur)
      case '(' | '{' | '[' => OldGroupToken(s, cur)
      case ')' | '}' | ']' => Err(ParseError("Unexpected token " + [s[cur]]))
      case _ =>
        var e := OldWordEnd(s, cur);
        Ok((Token(Word, cur, s[cur..e]), e))
  }

  /** The tokens from cursor cur up to and including the first EOF. */
  function OldLexFrom(s: string, cur: nat): Result<seq<Token>>
    requires cur <= |s|
    decreases |s| - cur
  {
    match OldTokenAt(s, cur)
    case Ok((t, next)) => if t.kind == EOF then Ok([t]) else Prefixed([t], OldLexFrom(s, next))
    case Err(m) => Err(m)
    case OutOfBounds(i) => OutOfBounds(i)
  }

  /** Where a word starting at cur ends: at the first special character, after
      cur, not preceded by a backslash (the first character itself is never
      tested), or at the end of input. */
  function OldWordEnd(s: string, cur: nat): (e: nat)
    requires cur < |s|
    ensures cur < e <= |s|
    ensures forall k :: cur < k < e ==> !StopsUnescaped(s, OldSpecialChars, k)
    ensures e == |s| || StopsUnescaped(s, OldSpecialChars, e)
  {
    match ScanNotEscaped(s, cur + 1, OldSpecialChars)
    case None => |s|
    case Some(j) => j
  }

  /** The case of a quote: the text through the next copy of the quote not
      preceded by a backslash, both quotes kept; with none, the error message
      reads past the end of the array. */
  function OldQuotedToken(s: string, cur: nat): (r: Result<(Token, nat)>)
    requires cur < |s|
    ensures !r.Err?
    ensures r.OutOfBounds? ==> r.index == |s|
    ensures r.Ok? ==> cur + 1 < r.value.1 <= |s|
    ensures r.Ok? ==> r.value.0.kind == StringFormat || r.value.0.kind == StringLit
  {
    match ScanNotEscaped(s, cur + 1, [s[cur]])
    case None => OutOfBounds(|s|)  // the message reads peek() at the end
    case Some(j) => Ok((Token(if s[j] == '"' then StringFormat else StringLit, cur, s[cur..j + 1]), j + 1))
  }

  /** The case of an opening bracket: the text through the next target of the
      seek for its closer; with none, the error names the length of the input. */
  function OldGroupToken(s: string, cur: nat): (r: Result<(Token, nat)>)
    requires cur < |s|
    ensures !r.OutOfBounds?
    ensures r.Ok? ==> cur + 1 < r.value.1 <= |s| && r.value.0.kind == GroupKind(s[cur])
    ensures r.Err? ==> r.errorMessage == ParseError(MsgNoMatching(Closer(s[cur]), |s|))
  {
    match ScanFor(s, cur + 1, [Closer(s[cur])])
    case None => Err(ParseError(MsgNoMatching(Closer(s[cur]), |s|)))
    case Some(j) => Ok((Token(GroupKind(s[cur]), cur, s[cur..j + 1]), j + 1))
  }

  /** The case of OldTokenAt for a blank: the token after the run, or a read
      past the end when the run ends the input. */
  lemma OldBlankAt(s: string, cur: nat)
    requires cur < |s| && IsBlank(s[cur])
    ensures OldTokenAt(s, cur) == if RunEnd(s, cur) == |s| then OutOfBounds(|s|) else OldTokenAt(s, RunEnd(s, cur))
  {
  }

  class JBashParser {
    const str: string
    var start: nat
    var current: nat

    constructor (s: string)
      ensures str == s && start == 0 && current == 0
    {
      str := s;
      start := 0;
      current := 0;
    }

    function End(): bool
      reads this
    {
      current == |str|
    }

    function Prev(): char
      reads this
      requires 0 < current <= |str|
    {
      str[current - 1]
    }

    function Peek(): char
      reads this
      requires current < |str|
    {
      str[current]
    }

    /** seek: advance to the next target; on failure the cursor stays at the end. */
    method Seek(targets: seq<char>) returns (found: bool)
      requires current < |str|
      modifies this`current
      ensures found == ScanFor(str, old(current) + 1, targets).Some?
      ensures found ==> current == ScanFor(str, old(current) + 1, targets).value
      ensures !found ==> current == |str|
    {
      ghost var from := current + 1;
      current := current + 1;
      while !End() && !IsTarget(targets, Peek())
        invariant from <= current <= |str|
        invariant ScanFor(str, current, targets) == ScanFor(str, from, targets)
        decreases |str| - current
      {
        current := current + 1;
      }
      return !End();
    }

    /** seekNotEscaped: a target right after a backslash does not stop it. */
    method SeekNotEscaped(targets: seq<char>) returns (found: bool)
      requires current < |str|
      modifies this`current
      ensures found == ScanNotEscaped(str, old(current) + 1, targets).Some?
      ensures found ==> current == ScanNotEscaped(str, old(current) + 1, targets).value
      ensures !found ==> current == |str|
    {
      ghost var from := current + 1;
      current := current + 1;
      while !End() && (Prev() == '\\' || !IsTarget(targets, Peek()))
        invariant from <= current <= |str|
        invariant ScanNotEscaped(str, current, targets) == ScanNotEscaped(str, from, targets)
        decreases |str| - current
      {
        current := current + 1;
      }
      return !End();
    }

    method SeekUntil(targets: seq<char>) returns (found: bool)
      requires current < |str|
      modifies this`current
      ensures found == ScanFor(str, old(current) + 1, targets).Some?
      ensures found ==> current + 1 == ScanFor(str, old(current) + 1, targets).value
      ensures !found ==> current == |str|
    {
      found := Seek(targets);
      if !found {
        return false;
      }
      current := current - 1;
      return true;
    }

    method SeekUntilNotEscaped(targets: seq<char>) returns (found: bool)
      requires current < |str|
      modifies this`current
      ensures found == ScanNotEscaped(str, old(current) + 1, targets).Some?
      ensures found ==> current + 1 == ScanNotEscaped(str, old(current) + 1, targets).value
      ensures !found ==> current == |str|
    {
      found := SeekNotEscaped(targets);
      if !found {
        return false;
      }
      current := current - 1;
      return true;
    }

    /** match: step over the current character when it is one of matches.  There
        is no end check, so at the end of input any non-empty list reads past the
        array. */
    method Match(matches: seq<char>) returns (r: Result<bool>)
      requires current <= |str|
      modifies this`current
      ensures !r.Err?
      ensures r.OutOfBounds? <==> |matches| > 0 && old(current) == |str|
      ensures r.OutOfBounds? ==> r.index == |str|
      ensures r.Ok? ==> r.value == (old(current) < |str| && str[old(current)] in matches)
      ensures r.Ok? ==> current == if r.value then old(current) + 1 else old(current)
    {
      var k := 0;
      while k < |matches|
        invariant 0 <= k <= |matches|
        invariant current == old(current)
        invariant k > 0 ==> current < |str|
        invariant forall j :: 0 <= j < k ==> matches[j] != str[current]
      {
        if End() {
          return OutOfBounds(current);
        }
        if Peek() == matches[k] {
          current := current + 1;
          return Ok(true);
        }
        k := k + 1;
      }
      return Ok(false);
    }

    /** consume: substring(start, ++current); afterwards start == current. */
    method Consume() returns (lexeme: string)
      requires start <= current < |str|
      modifies this`start, this`current
      ensures current == old(current) + 1
      ensures lexeme == str[old(start)..current]
      ensures start == current
    {
      current := current + 1;
      lexeme := str[start..current];
      start := current;
    }

    /** nextToken, proved against OldTokenAt. */
    method NextToken() returns (r: Result<Token>)
      requires start == current <= |str|
      modifies this`start, this`current
      ensures r == TokenOnly(OldTokenAt(str, old(current)))
      ensures r.Ok? ==> start == current == OldTokenAt(str, old(current)).value.1
      decreases |str| - current, 1
    {
      if End() {
        return Ok(Token(EOF, start, ""));
      }
      match Peek() {
        case ' ' | '\t' =>
          OldBlankAt(str, current);
          r := SkipBlanks();
        case '$' =>
          var position := start;
          var lexeme := Consume();
          assert lexeme == [str[position]];
          return Ok(Token(Dollar, position, lexeme));
        case '"' | '\'' =>
          r := NextQuoted();
        case '(' =>
          r := NextGroup(')', ParenExpr);
        case '{' =>
          r := NextGroup('}', CurlyExpr);
        case '[' =>
          r := NextGroup(']', BrackExpr);
        case ')' | '}' | ']' =>
          return Err(ParseError("Unexpected token " + [Peek()]));
        case _ =>
          r := NextWord();
      }
    }

    /** The case of a space or tab: skip the run, then the token after it. */
    method SkipBlanks() returns (r: Result<Token>)
      requires start == current < |str| && IsBlank(str[current])
      modifies this`start, this`current
      ensures RunEnd(str, old(current)) == |str| ==> r == OutOfBounds(|str|)
      ensures RunEnd(str, old(current)) < |str| ==> r == TokenOnly(OldTokenAt(str, RunEnd(str, old(current))))
      ensures RunEnd(str, old(current)) < |str| && r.Ok? ==>
                start == current == OldTokenAt(str, RunEnd(str, old(current))).value.1
      decreases |str| - current, 0
    {
      ghost var cur := current;
      var first := Match([' ', '\t']);
      var more := first.value;  // the cursor is on a blank, so this match reads in bounds
      while more
        invariant cur < current <= |str|
        invariant start == cur
        invariant forall k :: cur <= k < current ==> IsBlank(str[k])
        invariant !more ==> current < |str| && !IsBlank(str[current])
        decreases |str| - current + if more then 1 else 0
      {
        if End() {
          RunEndUnique(str, cur, current);
        }
        var next := Match([' ', '\t']);
        if !next.Ok? {
          return next.PropagateFailure();
        }
        more := next.value;
      }
      RunEndUnique(str, cur, current);
      ghost var e := current;
      current := current - 1;
      var _ := Consume();
      r := NextToken();
    }

    /** The case of a quote: the text through the next unescaped target, quotes kept. */
    method NextQuoted() returns (r: Result<Token>)
      requires start == current < |str|
      modifies this`start, this`current
      ensures r == TokenOnly(OldQuotedToken(str, old(current)))
      ensures r.Ok? ==> start == current == OldQuotedToken(str, old(current)).value.1
    {
      ghost var cur := current;
      var found := SeekNotEscaped([Peek()]);
      if !found {
        return OutOfBounds(current);  // msgNoMatching(peek(), ...) reads str[length]
      }
      ghost var j := current;
      var kind := if Peek() == '"' then StringFormat else StringLit;
      var position := start;
      var lexeme := Consume();
      assert position == cur && lexeme == str[cur..j + 1];
      return Ok(Token(kind, position, lexeme));
    }

    /** The cases of '(', '{' and '[': the text through the next target. */
    method NextGroup(closer: char, kind: TokenType) returns (r: Result<Token>)
      requires start == current < |str|
      requires closer == Closer(str[current]) && kind == GroupKind(str[current])
      modifies this`start, this`current
      ensures r == TokenOnly(OldGroupToken(str, old(current)))
      ensures r.Ok? ==> start == current == OldGroupToken(str, old(current)).value.1
    {
      ghost var cur := current;
      var found := Seek([closer]);
      if !found {
        return Err(ParseError(MsgNoMatching(closer, current)));
      }
      ghost var j := current;
      var position := start;
      var lexeme := Consume();
      assert position == cur && lexeme == str[cur..j + 1];
      return Ok(Token(kind, position, lexeme));
    }

    /** The default case: a word up to the next unescaped special character. */
    method NextWord() returns (r: Result<Token>)
      requires start == current < |str|
      modifies this`start, this`current
      ensures r == Ok(Token(Word, old(current), str[old(current)..OldWordEnd(str, old(current))]))
      ensures start == current == OldWordEnd(str, old(current))
    {
      var found := SeekUntilNotEscaped(OldSpecialChars);
      if !found {
        current := current - 1;  // wards off the read past the end
      }
      var position := start;
      var lexeme := Consume();
      return Ok(Token(Word, position, lexeme));
    }
  }

  /** parseCommand, proved against OldLexFrom: tokens up to and including the first EOF. */
  method ParseCommand(input: string) returns (r: Result<seq<Token>>)
    ensures r == OldLexFrom(input, 0)
  {
    var parser := new JBashParser(input);
    var tokens: seq<Token> := [];
    PrefixedEmpty(OldLexFrom(input, 0));
    while true
      invariant parser.str == input
      invariant parser.start == parser.current <= |input|
      invariant OldLexFrom(input, 0) == Prefixed(tokens, OldLexFrom(input, parser.current))
      decreases |input| - parser.current
    {
      ghost var before := parser.current;
      var t := parser.NextToken();
      if !t.Ok? {
        PrefixedFailure(tokens, OldLexFrom(input, before));
        return t.PropagateFailure();
      }
      PrefixedStep(tokens, t.value, OldLexFrom(input, parser.current));
      tokens := tokens + [t.value];
      if t.value.kind == EOF {
        assert OldLexFrom(input, before) == Ok([t.value]);
        return Ok(tokens);
      }
    }
  }

  // Properties of the snapshot.

  /** The shape of a successful token list from this snapshot. */
  predicate EndsAtOnlyEof(ts: seq<Token>)
  {
    |ts| > 0 && ts[|ts| - 1].kind == EOF && ts[|ts| - 1].lexeme == "" &&
    (forall k :: 0 <= k < |ts| - 1 ==> ts[k].kind != EOF) &&
    (forall k :: 0 <= k < |ts| ==> ts[k].kind != Whitespace)
  }

  /** The list ends with the only EOF token, whose lexeme is empty, and holds no
      Whitespace token; a crash always reads the index just past the input. */
  lemma {:induction false} OldLexShape(s: string, cur: nat)
    requires cur <= |s|
    ensures OldLexFrom(s, cur).Ok? ==> EndsAtOnlyEof(OldLexFrom(s, cur).value)
    ensures OldLexFrom(s, cur).OutOfBounds? ==> OldLexFrom(s, cur).index == |s|
    decreases |s| - cur
  {
    match OldTokenAt(s, cur)
    case Ok((t, next)) =>
      if t.kind != EOF {
        OldLexShape(s, next);
        if OldLexFrom(s, next).Ok? {
          var rest := OldLexFrom(s, next).value;
          assert OldLexFrom(s, cur) == Ok([t] + rest);
          EndsAtOnlyEofCons(t, rest);
        }
      }
    case Err(_) =>
    case OutOfBounds(_) =>
  }

  /** A token that is neither EOF nor Whitespace keeps the shape when put in front. */
  lemma EndsAtOnlyEofCons(t: Token, rest: seq<Token>)
    requires t.kind != EOF && t.kind != Whitespace && EndsAtOnlyEof(rest)
    ensures EndsAtOnlyEof([t] + rest)
  {
    var ts := [t] + rest;
    forall k | 0 <= k < |ts| ensures ts[k].kind != Whitespace {
      if k > 0 { assert ts[k] == rest[k - 1]; }
    }
    forall k | 0 <= k < |ts| - 1 ensures ts[k].kind != EOF {
      if k > 0 { assert ts[k] == rest[k - 1]; }
    }
    assert ts[|ts| - 1] == rest[|rest| - 1];
  }

  /** A run of blanks that reaches the end of input reads past the array. */
  lemma TrailingBlanks(s: string, cur: nat)
    requires cur < |s| && forall k :: cur <= k < |s| ==> IsBlank(s[k])
    ensures OldTokenAt(s, cur) == OutOfBounds(|s|)
  {
    RunEndUnique(s, cur, |s|);
  }

  /** A run of blanks before anything else is skipped: the token is the one after it. */
  lemma BlanksSkipped(s: string, cur: nat)
    requires cur < |s| && IsBlank(s[cur]) && RunEnd(s, cur) < |s|
    ensures OldTokenAt(s, cur) == OldTokenAt(s, RunEnd(s, cur))
  {
  }

  /** A quoted token fails only by reading past the end, and exactly when no
      unescaped target follows the opening quote. */
  lemma OldQuotedFails(s: string, cur: nat)
    requires cur < |s| && s[cur] in "\"'"
    ensures !OldTokenAt(s, cur).Err?
    ensures OldTokenAt(s, cur).OutOfBounds? <==>
              forall k :: cur < k < |s| ==> !StopsUnescaped(s, [s[cur]], k)
  {
    OldTokenQuote(s, cur);
    var r := ScanNotEscaped(s, cur + 1, [s[cur]]);
    if r.Some? {
      assert StopsUnescaped(s, [s[cur]], r.value);
    }
  }

  /** A matched quoted token runs from the opening quote through the stop, both
      quotes included, and is StringFormat exactly when the stop is a double quote,
      which only a double-quoted token can reach. */
  lemma OldQuoted(s: string, cur: nat)
    requires cur < |s| && s[cur] in "\"'"
    ensures OldTokenAt(s, cur).Ok? ==>
      var (t, n) := OldTokenAt(s, cur).value;
      cur + 1 < n && t.position == cur && t.lexeme == s[cur..n] &&
      StopsUnescaped(s, [s[cur]], n - 1) &&
      (t.kind == StringFormat <==> s[n - 1] == '"') &&
      (t.kind == StringFormat ==> s[cur] == '"') &&
      (t.kind == StringFormat || t.kind == StringLit)
  {
    OldTokenQuote(s, cur);
    var r := ScanNotEscaped(s, cur + 1, [s[cur]]);
    if r.Some? {
      OldQuotedStop(s, cur, r.value);
    }
  }

  /** At a quote, OldTokenAt is the quoted case. */
  lemma OldTokenQuote(s: string, cur: nat)
    requires cur < |s| && s[cur] in "\"'"
    ensures OldTokenAt(s, cur) == OldQuotedToken(s, cur)
  {
    var c := s[cur];
    assert c == '"' || c == '\'';
  }

  /** The quoted token when the scan stops at j, field by field. */
  lemma OldQuotedStop(s: string, cur: nat, j: nat)
    requires cur < |s| && s[cur] in "\"'"
    requires ScanNotEscaped(s, cur + 1, [s[cur]]) == Some(j)
    ensures OldTokenAt(s, cur).Ok? && OldTokenAt(s, cur).value.1 == j + 1
    ensures OldTokenAt(s, cur).value.0.position == cur
    ensures OldTokenAt(s, cur).value.0.lexeme == s[cur..j + 1]
    ensures OldTokenAt(s, cur).value.0.kind == if s[j] == '"' then StringFormat else StringLit
    ensures s[j] == '"' ==> s[cur] == '"'
  {
    OldTokenQuote(s, cur);
  }

  /** An opening bracket fails exactly when no target of its seek follows it, and
      the failure reports the length of the input, because the failed seek left the
      cursor at the end. */
  lemma OldUnmatchedGroup(s: string, cur: nat)
    requires cur < |s| && s[cur] in "({["
    ensures var closer := Closer(s[cur]);
      OldTokenAt(s, cur).Err? <==> forall k :: cur < k < |s| ==> s[k] != closer && s[k] != '[' && s[k] != ']'
    ensures !OldTokenAt(s, cur).OutOfBounds?
    ensures OldTokenAt(s, cur).Err? ==> OldTokenAt(s, cur) == Err(ParseError(MsgNoMatching(Closer(s[cur]), |s|)))
  {
    var closer := Closer(s[cur]);
    if !OldTokenAt(s, cur).Err? {
      var j := ScanFor(s, cur + 1, [closer]).value;
      assert IsTarget([closer], s[j]);
    }
  }

  /** A closing bracket at the cursor fails with "Unexpected token c". */
  lemma OldUnexpectedCloser(s: string, cur: nat)
    requires cur < |s| && s[cur] in ")}]"
    ensures OldTokenAt(s, cur) == Err(ParseError("Unexpected token " + [s[cur]]))
  {
  }

  /** A target of the word scan is one of the eight special characters or a comma;
      tabs, quotes and newlines do not end a word. */
  lemma OldSpecialTarget(c: char)
    ensures IsTarget(OldSpecialChars, c) <==> c in OldSpecialChars || c == ','
  {
  }

  /** A word runs from the cursor up to, not including, the first special character
      not preceded by a backslash (the first character itself is never tested), or
      to the end of input. */
  lemma OldWordExtent(s: string, cur: nat)
    requires cur < |s| && !(s[cur] in " \t$\"'(){}[]")
    ensures OldTokenAt(s, cur).Ok?
    ensures var (t, e) := OldTokenAt(s, cur).value;
      cur < e && t == Token(Word, cur, s[cur..e]) &&
      (forall k :: cur < k < e ==> !StopsUnescaped(s, OldSpecialChars, k)) &&
      (e == |s| || StopsUnescaped(s, OldSpecialChars, e))
  {
  }

  /** "ls ": the word is scanned, then the trailing blank makes match read past the
      array, so the whole command fails. */
  lemma TrailingSpaceCrash(s: string)
    requires s == "ls "
    ensures OldLexFrom(s, 0) == OutOfBounds(3)
  {
    OldSpecialTarget(s[1]);
    OldSpecialTarget(s[2]);
    assert ScanNotEscaped(s, 1, OldSpecialChars) == Some(2);
    var w := Token(Word, 0, "ls");
    assert s[0..2] == "ls";
    assert OldTokenAt(s, 0) == Ok((w, 2));
    TrailingBlanks(s, 2);
    assert OldLexFrom(s, 2) == OutOfBounds(3);
  }
}

