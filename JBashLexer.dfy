/** The jbash.parser lexer: a cursor-driven scanner over the input string that
    produces the token list of one command line.  The pure functions at the top
    state what each scan computes; the class Lexer below is the object of the
    source, with its fields str, start, current and tokens, and each of its
    methods is proved against those functions. */
module JBashLexer {
  import opened Outcomes
  import opened JavaText
  import opened Tokens
  import opened JBashUtils

  /** Marks a quoted region once the quote pass has rewritten it. */
  const EscapedSentinel: char := '\U{FDEF}'

  /** The characters that end an unquoted word. */
  const SpecialChars: seq<char> :=
    ['{', '}', '[', ']', '(', ')', '$', ' ', '>', '"', '\'', '\\', '\n', EscapedSentinel]

  /** The twelve reserved words, in the order of the keyword switch. */
  const Keywords: seq<string> :=
    ["if", "then", "else", "elif", "fi", "do", "done", "case", "esac", "while", "until", "for"]

  /** The membership test of every seek, Arrays.toString(targets).indexOf(c) != -1,
      in closed form: the brackets of the text always match, and so do its ", "
      separators once there are two targets (IsTargetText). */
  predicate IsTarget(targets: seq<char>, c: char)
  {
    c == '[' || c == ']' || c in targets || (|targets| >= 2 && (c == ',' || c == ' '))
  }

  /** The closed form is the membership test on the Arrays.toString text. */
  lemma IsTargetText(targets: seq<char>, c: char)
    ensures IsTarget(targets, c) <==> c in ArraysToString(targets)
  {
    InArraysToString(targets, c);
  }

  predicate IsBlank(c: char)
  {
    c == ' ' || c == '\t'
  }

  /** The text of a JBParserException built from message. */
  function ParseError(message: string): string
  {
    "Parse Error:" + message
  }

  function MsgNoMatching(charToMatch: char, indexOfFirst: nat): string
  {
    "at: " + NatToString(indexOfFirst) + " No matching '" + [charToMatch] + "' found"
  }

  const SentinelMissing: string := "Internal parser error: " + "escaped region did not have final escape sentinel"

  /** The reserved word a keyword kind stands for ("" for the other kinds). */
  function Spelling(kind: TokenType): string
  {
    match kind
    case If => "if"
    case Then => "then"
    case Else => "else"
    case Elif => "elif"
    case Fi => "fi"
    case Do => "do"
    case Done => "done"
    case Case => "case"
    case Esac => "esac"
    case While => "while"
    case Until => "until"
    case For => "for"
    case _ => ""
  }

  /** getKeywordType: a reserved word gets its own kind, any other text is a Word. */
  function KeywordType(s: string): TokenType
  {
    match s
    case "if" => If
    case "then" => Then
    case "else" => Else
    case "elif" => Elif
    case "fi" => Fi
    case "do" => Do
    case "done" => Done
    case "case" => Case
    case "esac" => Esac
    case "while" => While
    case "until" => Until
    case "for" => For
    case _ => Word
  }

  /** A text gets a keyword kind exactly when it is one of the reserved words,
      and then the kind spells that word back. */
  lemma KeywordTypeExact(s: string)
    ensures KeywordType(s) != Word <==> s in Keywords
    ensures KeywordType(s) != Word ==> Spelling(KeywordType(s)) == s
  {
    if s !in Keywords {
      assert s != "if" && s != "then" && s != "else" && s != "elif" && s != "fi" && s != "do";
      assert s != "done" && s != "case" && s != "esac" && s != "while" && s != "until" && s != "for";
    }
  }

  /** The first index at or after from whose character is a target. */
  function ScanFor(s: string, from: nat, targets: seq<char>): (r: Option<nat>)
    requires from <= |s|
    decreases |s| - from
    ensures r.Some? ==> from <= r.value < |s| && IsTarget(targets, s[r.value])
    ensures r.Some? ==> forall k :: from <= k < r.value ==> !IsTarget(targets, s[k])
    ensures r.None? ==> forall k :: from <= k < |s| ==> !IsTarget(targets, s[k])
  {
    if from == |s| then None
    else if IsTarget(targets, s[from]) then Some(from)
    else ScanFor(s, from + 1, targets)
  }

  /** A position where seekNotEscaped stops: a target not preceded by a backslash. */
  predicate StopsUnescaped(s: string, targets: seq<char>, k: nat)
    requires 0 < k < |s|
  {
    s[k - 1] != '\\' && IsTarget(targets, s[k])
  }

  /** The first index at or after from (from > 0) where seekNotEscaped stops. */
  function ScanNotEscaped(s: string, from: nat, targets: seq<char>): (r: Option<nat>)
    requires 0 < from <= |s|
    decreases |s| - from
    ensures r.Some? ==> from <= r.value < |s| && StopsUnescaped(s, targets, r.value)
    ensures r.Some? ==> forall k :: from <= k < r.value ==> !StopsUnescaped(s, targets, k)
    ensures r.None? ==> forall k :: from <= k < |s| ==> !StopsUnescaped(s, targets, k)
  {
    if from == |s| then None
    else if StopsUnescaped(s, targets, from) then Some(from)
    else ScanNotEscaped(s, from + 1, targets)
  }

  /** Where seek(targets) leaves the cursor, starting from cur: the search starts
      one past cur, because the do-while advances before it tests. */
  function SeekStop(s: string, cur: nat, targets: seq<char>): Option<nat>
    requires cur < |s|
  {
    ScanFor(s, cur + 1, targets)
  }

  function SeekStopNotEscaped(s: string, cur: nat, targets: seq<char>): Option<nat>
    requires cur < |s|
  {
    ScanNotEscaped(s, cur + 1, targets)
  }

  /** The end of the run of spaces and tabs that starts at from. */
  function RunEnd(s: string, from: nat): (r: nat)
    requires from <= |s|
    decreases |s| - from
    ensures from <= r <= |s|
    ensures forall k :: from <= k < r ==> IsBlank(s[k])
    ensures r == |s| || !IsBlank(s[r])
  {
    if from == |s| || !IsBlank(s[from]) then from else RunEnd(s, from + 1)
  }

  /** The closer that seek looks for after an opening character. */
  function Closer(c: char): char
  {
    match c
    case '(' => ')'
    case '{' => '}'
    case '[' => ']'
    case _ => '\''
  }

  function GroupKind(c: char): TokenType
  {
    match c
    case '(' => ParenExpr
    case '{' => CurlyExpr
    case _ => BrackExpr
  }

  /** What nextToken returns when called with start == current == cur: the token
      and the new cursor, or the exception it throws. */
  function TokenAt(s: string, cur: nat): (r: Result<(Token, nat)>)
    requires cur <= |s|
    ensures r.Ok? ==> cur <= r.value.1 <= |s|
    ensures r.Ok? && !IsTerminal(r.value.0.kind) ==> cur < r.value.1
  {
    if cur == |s| then Ok((Token(EOF, cur, ""), cur))
    else match s[cur]
      case '\n' => Ok((Token(EOF, cur, ""), cur))
      case '\\' =>
        if cur + 1 == |s| then OutOfBounds(cur + 1)
        else Ok((Token(if s[cur + 1] == '\n' then EOL else Word, cur + 1, s[cur + 1..cur + 2]), cur + 2))
      case '>' => Ok((Token(Great, cur, ">"), cur + 1))
      case '\U{FDEF}' =>
        (match SeekStop(s, cur, [EscapedSentinel])
         case None => Err(ParseError(SentinelMissing))
         case Some(j) => Ok((Token(Word, j + 1, s[cur + 1..j]), j + 1)))
      case ' ' | '\t' =>
        var e := RunEnd(s, cur);
        Ok((Token(Whitespace, e, "\0"), e))
      case '$' => Ok((Token(Dollar, cur, "$"), cur + 1))
      case '\'' =>
        (match SeekStop(s, cur, ['\''])
         case None => Err(ParseError(MsgNoMatching('\'', cur)))
         case Some(j) => Ok((Token(StringLit, j + 1, s[cur + 1..j]), j + 1)))
      case '(' | '{' | '[' =>
        (match SeekStop(s, cur, [Closer(s[cur])])
         case None => Err(ParseError(MsgNoMatching(Closer(s[cur]), cur)))
         case Some(j) => Ok((Token(GroupKind(s[cur]), cur, s[cur..j + 1]), j + 1)))
      case ')' | '}' | ']' => Err(ParseError("Unexpected token " + [s[cur]]))
      case _ =>
        var e := match SeekStopNotEscaped(s, cur, SpecialChars) case None => |s| case Some(j) => j;
        Ok((Token(KeywordType(s[cur..e]), e, s[cur..e]), e))
  }

  /** The token of a scan step, without the new cursor. */
  function TokenOnly(r: Result<(Token, nat)>): Result<Token>
  {
    match r
    case Ok((t, _)) => Ok(t)
    case Err(m) => Err(m)
    case OutOfBounds(i) => OutOfBounds(i)
  }

  /** acc in front of the tokens of r, or r's failure. */
  function Prefixed(acc: seq<Token>, r: Result<seq<Token>>): Result<seq<Token>>
  {
    match r
    case Ok(ts) => Ok(acc + ts)
    case Err(m) => Err(m)
    case OutOfBounds(i) => OutOfBounds(i)
  }

  /** processTokens from cursor cur: tokens up to and including the first EOF or EOL. */
  function LexFrom(s: string, cur: nat): Result<seq<Token>>
    requires cur <= |s|
    decreases |s| - cur
  {
    match TokenAt(s, cur)
    case Ok((t, next)) => if IsTerminal(t.kind) then Ok([t]) else Prefixed([t], LexFrom(s, next))
    case Err(m) => Err(m)
    case OutOfBounds(i) => OutOfBounds(i)
  }

  /** lexCommand: no tokens for empty input; the quote pass leaves the text as it is. */
  function Lex(input: string): Result<seq<Token>>
  {
    if |input| == 0 then Ok([]) else LexFrom(input, 0)
  }

  /** The shape of a token sequence: only its last token ends the line. */
  predicate WellTerminated(ts: seq<Token>)
  {
    |ts| > 0 && IsTerminal(ts[|ts| - 1].kind) &&
    forall k :: 0 <= k < |ts| - 1 ==> !IsTerminal(ts[k].kind)
  }

  class Lexer {
    var str: string
    var start: nat
    var current: nat
    var tokens: seq<Token>

    constructor (s: string)
      ensures str == s && start == 0 && current == 0 && tokens == []
    {
      str := s;
      start := 0;
      current := 0;
      tokens := [];
    }

    function End(): bool
      reads this
    {
      current == |str|
    }

    function Prev(): char
      reads this
      requires 0 < current <= |str|
    {
      str[current - 1]
    }

    function Peek(): char
      reads this
      requires current < |str|
    {
      str[current]
    }

    method Skip()
      modifies this`current
      ensures current == |str|
    {
      current := |str|;
    }

    /** seek: advance to the next target; on failure the cursor is put back. */
    method Seek(targets: seq<char>) returns (found: bool)
      requires current < |str|
      modifies this`current
      ensures found == SeekStop(str, old(current), targets).Some?
      ensures found ==> current == SeekStop(str, old(current), targets).value
      ensures found ==> old(current) < current < |str| && IsTarget(targets, str[current])
      ensures !found ==> current == old(current)
    {
      var originalCurrent := current;
      current := current + 1;
      while !End() && !IsTarget(targets, Peek())
        invariant originalCurrent < current <= |str|
        invariant ScanFor(str, current, targets) == SeekStop(str, originalCurrent, targets)
        decreases |str| - current
      {
        current := current + 1;
      }
      if End() {
        current := originalCurrent;
        return false;
      }
      return true;
    }

    /** seekNotEscaped: like Seek, but a target right after a backslash does not stop it. */
    method SeekNotEscaped(targets: seq<char>) returns (found: bool)
      requires current < |str|
      modifies this`current
      ensures found == SeekStopNotEscaped(str, old(current), targets).Some?
      ensures found ==> current == SeekStopNotEscaped(str, old(current), targets).value
      ensures found ==> old(current) < current < |str| && IsTarget(targets, str[current])
      ensures found ==> str[current - 1] != '\\'
      ensures !found ==> current == old(current)
    {
      var originalCurrent := current;
      current := current + 1;
      while !End() && (Prev() == '\\' || !IsTarget(targets, Peek()))
        invariant originalCurrent < current <= |str|
        invariant ScanNotEscaped(str, current, targets) == SeekStopNotEscaped(str, originalCurrent, targets)
        decreases |str| - current
      {
        current := current + 1;
      }
      if End() {
        current := originalCurrent;
        return false;
      }
      return true;
    }

    /** seekUntil: Seek, then step back onto the character before the target. */
    method SeekUntil(targets: seq<char>) returns (found: bool)
      requires current < |str|
      modifies this`current
      ensures found == SeekStop(str, old(current), targets).Some?
      ensures found ==> current + 1 == SeekStop(str, old(current), targets).value
      ensures !found ==> current == old(current)
    {
      found := Seek(targets);
      if !found {
        return false;
      }
      current := current - 1;
      return true;
    }

    method SeekUntilNotEscaped(targets: seq<char>) returns (found: bool)
      requires current < |str|
      modifies this`current
      ensures found == SeekStopNotEscaped(str, old(current), targets).Some?
      ensures found ==> current + 1 == SeekStopNotEscaped(str, old(current), targets).value
      ensures !found ==> current == old(current)
    {
      found := SeekNotEscaped(targets);
      if !found {
        return false;
      }
      current := current - 1;
      return true;
    }

    /** match: step over the current character when it is one of matches. */
    method Match(matches: seq<char>) returns (matched: bool)
      requires current <= |str|
      modifies this`current
      ensures matched == (old(current) < |str| && str[old(current)] in matches)
      ensures current == if matched then old(current) + 1 else old(current)
    {
      if End() {
        return false;
      }
      var k := 0;
      while k < |matches|
        invariant 0 <= k <= |matches|
        invariant forall j :: 0 <= j < k ==> matches[j] != str[current]
      {
        if Peek() == matches[k] {
          current := current + 1;
          return true;
        }
        k := k + 1;
      }
      return false;
    }

    /** consume: the text from start through current (clamped at the end), after
        which start and current both point past it. */
    method Consume() returns (lexeme: string)
      requires start <= current <= |str|
      modifies this`start, this`current
      ensures current == if old(current) == |str| then old(current) else old(current) + 1
      ensures lexeme == str[old(start)..current]
      ensures start == current
    {
      current := current + if End() then 0 else 1;
      lexeme := str[start..current];
      start := current;
    }

    /** nextToken, proved against TokenAt.  The longer cases of the switch are
        the helper methods below, one per case. */
    method NextToken() returns (r: Result<Token>)
      requires start == current <= |str|
      modifies this`start, this`current
      ensures r == TokenOnly(TokenAt(str, old(current)))
      ensures r.Ok? ==> start == current == TokenAt(str, old(current)).value.1
    {
      if End() {
        return Ok(Token(EOF, start, ""));
      }
      ghost var cur := current;
      match Peek() {
        case '\n' =>
          return Ok(Token(EOF, start, ""));
        case '\\' =>
          r := NextEscaped();
        case '>' =>
          var position := start;
          var lexeme := Consume();
          assert lexeme == [str[cur]];
          return Ok(Token(Great, position, lexeme));
        case '\U{FDEF}' =>
          r := NextSentinelRegion();
        case ' ' | '\t' =>
          r := NextWhitespace();
        case '$' =>
          var position := start;
          var lexeme := Consume();
          assert lexeme == [str[cur]];
          return Ok(Token(Dollar, position, lexeme));
        case '\'' =>
          r := NextStringLit();
        case '(' =>
          r := NextGroup(')', ParenExpr);
        case '{' =>
          r := NextGroup('}', CurlyExpr);
        case '[' =>
          r := NextGroup(']', BrackExpr);
        case ')' | '}' | ']' =>
          return Err(ParseError("Unexpected token " + [Peek()]));
        case _ =>
          r := NextWord();
      }
    }

    /** The case of a backslash: skip it; the next character is the token. */
    method NextEscaped() returns (r: Result<Token>)
      requires start == current < |str| && str[current] == '\\'
      modifies this`start, this`current
      ensures r == TokenOnly(TokenAt(str, old(current)))
      ensures r.Ok? ==> start == current == TokenAt(str, old(current)).value.1
    {
      var _ := Consume();
      if End() {
        return OutOfBounds(current);  // peek() reads charAt(length)
      }
      var kind := if Peek() == '\n' then EOL else Word;
      var position := start;
      var lexeme := Consume();
      return Ok(Token(kind, position, lexeme));
    }

    /** The case of the escape sentinel: the text up to the next target, without
        the two end characters. */
    method NextSentinelRegion() returns (r: Result<Token>)
      requires start == current < |str| && str[current] == EscapedSentinel
      modifies this`start, this`current
      ensures r == TokenOnly(TokenAt(str, old(current)))
      ensures r.Ok? ==> start == current == TokenAt(str, old(current)).value.1
    {
      ghost var cur := current;
      var found := Seek([EscapedSentinel]);
      if !found {
        return Err(ParseError(SentinelMissing));
      }
      var content := Consume();
      PeelEnds(str, cur, current);
      content := content[1..|content| - 1];
      return Ok(Token(Word, start, content));
    }

    /** The case of a space or tab: the whole run becomes one separator token. */
    method NextWhitespace() returns (r: Result<Token>)
      requires start == current < |str| && IsBlank(str[current])
      modifies this`start, this`current
      ensures r == TokenOnly(TokenAt(str, old(current)))
      ensures r.Ok? ==> start == current == TokenAt(str, old(current)).value.1
    {
      ghost var cur := current;
      var more := Match([' ', '\t']);
      while more
        invariant cur < current <= |str|
        invariant start == cur
        invariant forall k :: cur <= k < current ==> IsBlank(str[k])
        invariant !more ==> current == |str| || !IsBlank(str[current])
        decreases |str| - current + if more then 1 else 0
      {
        more := Match([' ', '\t']);
      }
      assert current == RunEnd(str, cur) by { RunEndUnique(str, cur, current); }
      current := current - 1;
      var _ := Consume();
      return Ok(Token(Whitespace, start, "\0"));
    }

    /** The case of a single quote: the text up to the next target, quotes peeled off. */
    method NextStringLit() returns (r: Result<Token>)
      requires start == current < |str| && str[current] == '\''
      modifies this`start, this`current
      ensures r == TokenOnly(TokenAt(str, old(current)))
      ensures r.Ok? ==> start == current == TokenAt(str, old(current)).value.1
    {
      ghost var cur := current;
      var found := Seek(['\'']);
      if !found {
        return Err(ParseError(MsgNoMatching('\'', current)));
      }
      var content := Consume();
      PeelEnds(str, cur, current);
      content := content[1..|content| - 1];  // peel off the quotes
      return Ok(Token(StringLit, start, content));
    }

    /** The cases of '(', '{' and '[': the text through the next target. */
    method NextGroup(closer: char, kind: TokenType) returns (r: Result<Token>)
      requires start == current < |str| && str[current] in "({["
      requires closer == Closer(str[current]) && kind == GroupKind(str[current])
      modifies this`start, this`current
      ensures r == TokenOnly(TokenAt(str, old(current)))
      ensures r.Ok? ==> start == current == TokenAt(str, old(current)).value.1
    {
      var found := Seek([closer]);
      if !found {
        return Err(ParseError(MsgNoMatching(closer, current)));
      }
      var position := start;
      var lexeme := Consume();
      return Ok(Token(kind, position, lexeme));
    }

    /** The default case: a word up to the next unescaped special character. */
    method NextWord() returns (r: Result<Token>)
      requires start == current < |str|
      requires !(str[current] in "\n\\> \t$'(){}[]" || str[current] == EscapedSentinel)
      modifies this`start, this`current
      ensures r == TokenOnly(TokenAt(str, old(current)))
      ensures r.Ok? ==> start == current == TokenAt(str, old(current)).value.1
    {
      var found := SeekUntilNotEscaped(SpecialChars);
      if !found {
        Skip();
      }
      var word := Consume();
      return Ok(Token(KeywordType(word), start, word));
    }

    /** processQuotes.  Its loop runs while findFirstOf(str, i, "'", "\"") reports
        an index other than -1, and findFirstOf never does, so the guard is false
        on its first test and str is left as it is. */
    method ProcessQuotes()
      modifies this`str
      ensures str == old(str)
    {
      var i := 0;
      var quoteResult := FindFirstOf(str, i, ["'", "\""]);
      FindFirstOfNeverFinds(str, i, ["'", "\""]);
      if quoteResult.value.index != -1 {
        // The quote-rewriting body is unreachable.
        assert false;
      }
    }

    /** processTokens, proved against LexFrom: on success the tokens from the
        cursor to the first EOF or EOL are appended to tokens. */
    method ProcessTokens() returns (r: Result<()>)
      requires start == current <= |str|
      modifies this`start, this`current, this`tokens
      ensures match LexFrom(str, old(current))
              case Ok(ts) => r == Ok(()) && tokens == old(tokens) + ts
              case Err(m) => r == Err(m)
              case OutOfBounds(i) => r == OutOfBounds(i)
    {
      ghost var cur0 := current;
      ghost var n0 := |tokens|;
      var done := false;
      assert tokens[n0..] == [];
      PrefixedEmpty(LexFrom(str, cur0));
      while !done
        invariant start == current <= |str|
        invariant n0 <= |tokens| && tokens[..n0] == old(tokens)
        invariant !done ==> LexFrom(str, cur0) == Prefixed(tokens[n0..], LexFrom(str, current))
        invariant done ==> LexFrom(str, cur0) == Ok(tokens[n0..])
        decreases if done then 0 else 1, |str| - current
      {
        ghost var before := current;
        var t := NextToken();
        if !t.Ok? {
          LexFromFailure(str, before, tokens[n0..]);
          return t.PropagateFailure();
        }
        assert TokenAt(str, before) == Ok((t.value, current));
        LexFromAdvance(str, before, t.value, current, tokens[n0..]);
        tokens := tokens + [t.value];
        assert tokens[n0..] == tokens[n0..|tokens| - 1] + [t.value];
        done := t.value.kind == EOF || t.value.kind == EOL;
      }
      assert tokens == old(tokens) + tokens[n0..];
      r := Ok(());
    }
  }

  /** Dropping the two end characters of a slice. */
  lemma PeelEnds(s: string, i: nat, j: nat)
    requires i + 2 <= j <= |s|
    ensures s[i..j][1..j - i - 1] == s[i + 1..j - 1]
  {
    var a := s[i..j][1..j - i - 1];
    assert |a| == |s[i + 1..j - 1]|;
    forall k | 0 <= k < |a|
      ensures a[k] == s[i + 1..j - 1][k]
    {
      assert a[k] == s[i..j][k + 1] == s[i + 1 + k];
    }
  }

  lemma RunEndUnique(s: string, from: nat, e: nat)
    requires from <= e <= |s|
    requires forall k :: from <= k < e ==> IsBlank(s[k])
    requires e == |s| || !IsBlank(s[e])
    ensures e == RunEnd(s, from)
    decreases e - from
  {
    if from < e {
      RunEndUnique(s, from + 1, e);
    }
  }

  lemma PrefixedEmpty(r: Result<seq<Token>>)
    ensures Prefixed([], r) == r
  {
    if r.Ok? {
      assert [] + r.value == r.value;
    }
  }

  lemma PrefixedFailure(acc: seq<Token>, r: Result<seq<Token>>)
    requires !r.Ok?
    ensures Prefixed(acc, r) == r.PropagateFailure()
  {
  }

  lemma PrefixedStep(acc: seq<Token>, t: Token, r: Result<seq<Token>>)
    ensures Prefixed(acc, Prefixed([t], r)) == Prefixed(acc + [t], r)
  {
    if r.Ok? {
      assert acc + ([t] + r.value) == (acc + [t]) + r.value;
    }
  }

  /** One scan step inside processTokens: the tokens so far followed by the
      scan from before are the tokens so far and t followed by the scan from
      after, or exactly the tokens so far and t when t ends the line. */
  lemma LexFromAdvance(s: string, before: nat, t: Token, after: nat, acc: seq<Token>)
    requires before <= |s| && TokenAt(s, before) == Ok((t, after))
    ensures after <= |s|
    ensures IsTerminal(t.kind) ==> Prefixed(acc, LexFrom(s, before)) == Ok(acc + [t])
    ensures !IsTerminal(t.kind) ==> Prefixed(acc, LexFrom(s, before)) == Prefixed(acc + [t], LexFrom(s, after))
  {
    if !IsTerminal(t.kind) {
      PrefixedStep(acc, t, LexFrom(s, after));
    }
  }

  /** A failing scan step fails the whole scan with the same outcome. */
  lemma LexFromFailure(s: string, before: nat, acc: seq<Token>)
    requires before <= |s| && !TokenAt(s, before).Ok?
    ensures Prefixed(acc, LexFrom(s, before)) == TokenOnly(TokenAt(s, before)).PropagateFailure()
  {
  }

  /** lexCommand, proved against Lex. */
  method LexCommand(input: string) returns (r: Result<seq<Token>>)
    ensures r == Lex(input)
  {
    if |input| == 0 {
      return Ok([]);
    }
    var lexer := new Lexer(input);
    lexer.ProcessQuotes();
    assert lexer.str == input && lexer.current == 0 && lexer.tokens == [];
    var status := lexer.ProcessTokens();
    if !status.Ok? {
      return status.PropagateFailure();
    }
    assert LexFrom(input, 0).Ok?;
    assert [] + LexFrom(input, 0).value == LexFrom(input, 0).value;
    return Ok(lexer.tokens);
  }

  // Properties of the scanner.

  /** The first token of a successful scan is the token at the cursor. */
  lemma LexFromFirst(s: string, cur: nat)
    requires cur <= |s| && LexFrom(s, cur).Ok?
    ensures TokenAt(s, cur).Ok?
    ensures |LexFrom(s, cur).value| > 0 && LexFrom(s, cur).value[0] == TokenAt(s, cur).value.0
  {
  }

  /** A scan from any cursor ends with its first EOF or EOL token. */
  lemma {:induction false} LexFromTerminated(s: string, cur: nat)
    requires cur <= |s| && LexFrom(s, cur).Ok?
    ensures WellTerminated(LexFrom(s, cur).value)
    decreases |s| - cur
  {
    LexFromFirst(s, cur);
    var (t, next) := TokenAt(s, cur).value;
    if !IsTerminal(t.kind) {
      LexFromTerminated(s, next);
      var rest := LexFrom(s, next).value;
      assert LexFrom(s, cur).value == [t] + rest;
    }
  }

  /** lexCommand gives no tokens exactly for the empty input; otherwise the list
      ends with EOF or EOL and no earlier token is EOF or EOL. */
  lemma LexShape(input: string)
    ensures |input| == 0 ==> Lex(input) == Ok([])
    ensures Lex(input).Ok? && |input| > 0 ==> WellTerminated(Lex(input).value)
    ensures Lex(input).Ok? ==> (Lex(input).value == [] <==> |input| == 0)
  {
    if |input| > 0 && Lex(input).Ok? {
      LexFromTerminated(input, 0);
    }
  }

  /** A target of the word scan is one of the special characters or a comma:
      the comma comes from the separators of Arrays.toString, and a tab is not
      a target. */
  lemma SpecialTarget(c: char)
    ensures IsTarget(SpecialChars, c) <==> c in SpecialChars || c == ','
  {
  }

  /** An opening quote or bracket fails exactly when no target of its seek
      follows it (its closer, or a bracket of the Arrays.toString text), and the
      failure reports the opener's own index, because the failed seek put the
      cursor back. */
  lemma UnmatchedOpener(s: string, cur: nat)
    requires cur < |s| && s[cur] in "'({["
    ensures var closer := Closer(s[cur]);
      TokenAt(s, cur).Err? <==> forall k :: cur < k < |s| ==> s[k] != closer && s[k] != '[' && s[k] != ']'
    ensures !TokenAt(s, cur).OutOfBounds?
    ensures TokenAt(s, cur).Err? ==> TokenAt(s, cur) == Err(ParseError(MsgNoMatching(Closer(s[cur]), cur)))
  {
    var closer := Closer(s[cur]);
    assert s[cur] == '\'' ==> closer == '\'';
    if !TokenAt(s, cur).Err? {
      assert SeekStop(s, cur, [closer]).Some?;
      var j := SeekStop(s, cur, [closer]).value;
      assert IsTarget([closer], s[j]);
    }
  }

  /** A scan step fails with "Unexpected token c" exactly when c is a closing
      bracket at the cursor. */
  lemma UnexpectedCloser(s: string, cur: nat, c: char)
    requires cur <= |s|
    ensures TokenAt(s, cur) == Err(ParseError("Unexpected token " + [c])) <==>
              cur < |s| && s[cur] in ")}]" && c == s[cur]
  {
    var m := ParseError("Unexpected token " + [c]);
    assert m[12] == 'U' && m[13] == 'n';
    if cur < |s| && s[cur] in "'({[" {
      var m' := ParseError(MsgNoMatching(Closer(s[cur]), cur));
      assert m'[12] == 'a';
    }
    if cur < |s| && s[cur] == EscapedSentinel {
      assert SentinelMissing[0] == 'I';
      assert ParseError(SentinelMissing)[12] == SentinelMissing[0];
    }
    if cur < |s| && s[cur] in ")}]" {
      var m' := ParseError("Unexpected token " + [s[cur]]);
      assert |m'| == |m| && m'[|m| - 1] == s[cur] && m[|m| - 1] == c;
    }
  }

  /** A run of spaces and tabs becomes a single separator token "\0" that ends
      where the run ends, and the token after it is not whitespace. */
  lemma WhitespaceRun(s: string, cur: nat)
    requires cur < |s| && IsBlank(s[cur])
    ensures var e := RunEnd(s, cur);
      TokenAt(s, cur) == Ok((Token(Whitespace, e, "\0"), e)) &&
      cur < e && (forall k :: cur <= k < e ==> IsBlank(s[k])) &&
      (TokenAt(s, e).Ok? ==> TokenAt(s, e).value.0.kind != Whitespace)
  {
    var e := RunEnd(s, cur);
    OnlyBlankIsWhitespace(s, e);
  }

  /** Only a space or tab at the cursor gives a Whitespace token. */
  lemma OnlyBlankIsWhitespace(s: string, cur: nat)
    requires cur <= |s|
    ensures TokenAt(s, cur).Ok? && TokenAt(s, cur).value.0.kind == Whitespace ==> cur < |s| && IsBlank(s[cur])
  {
    if cur < |s| && !IsBlank(s[cur]) && TokenAt(s, cur).Ok? {
      var c := s[cur];
      assert c != ' ' && c != '\t';
      if !(c in "\n\\>\U{FDEF}$'({[)}]") {
        var w := TokenAt(s, cur).value.0;
        KeywordTypeExact(w.lexeme);
      }
    }
  }

  /** No two Whitespace tokens are adjacent: each maximal run of blanks gives
      exactly one. */
  lemma {:induction false} NoAdjacentWhitespace(s: string, cur: nat)
    requires cur <= |s| && LexFrom(s, cur).Ok?
    ensures var ts := LexFrom(s, cur).value;
      forall k :: 0 <= k < |ts| - 1 ==> ts[k].kind != Whitespace || ts[k + 1].kind != Whitespace
    decreases |s| - cur
  {
    LexFromFirst(s, cur);
    var (t, next) := TokenAt(s, cur).value;
    var ts := LexFrom(s, cur).value;
    if !IsTerminal(t.kind) {
      NoAdjacentWhitespace(s, next);
      var rest := LexFrom(s, next).value;
      assert ts == [t] + rest;
      LexFromFirst(s, next);
      if t.kind == Whitespace {
        OnlyBlankIsWhitespace(s, cur);
        WhitespaceRun(s, cur);
        assert rest[0].kind != Whitespace;
      }
      forall k | 0 <= k < |ts| - 1
        ensures ts[k].kind != Whitespace || ts[k + 1].kind != Whitespace
      {
        if k > 0 {
          assert ts[k] == rest[k - 1] && ts[k + 1] == rest[k];
        }
      }
    }
  }

  /** A word of the default case: the text from the cursor up to the first
      special character not preceded by a backslash (the first character itself
      is never tested), or to the end of input; it is a keyword kind exactly
      when the text is one of the reserved words. */
  lemma WordExtent(s: string, cur: nat)
    requires cur < |s| && !(s[cur] in "\n\\> \t$'(){}[]" || s[cur] == EscapedSentinel)
    ensures TokenAt(s, cur).Ok?
    ensures var (t, e) := TokenAt(s, cur).value;
      cur < e && t.lexeme == s[cur..e] && t.position == e &&
      (forall k :: cur < k < e ==> !StopsUnescaped(s, SpecialChars, k)) &&
      (e == |s| || StopsUnescaped(s, SpecialChars, e)) &&
      (t.kind != Word <==> t.lexeme in Keywords) &&
      (t.kind != Word ==> Spelling(t.kind) == t.lexeme)
  {
    var (t, e) := TokenAt(s, cur).value;
    KeywordTypeExact(t.lexeme);
  }

  /** A newline ends the scan with EOF and is not consumed; a backslash before a
      newline gives EOL with the newline as lexeme; a backslash at the very end
      reads past the input. */
  lemma LineEnds(s: string, cur: nat)
    requires cur < |s|
    ensures s[cur] == '\n' ==> TokenAt(s, cur) == Ok((Token(EOF, cur, ""), cur))
    ensures s[cur] == '\\' && cur + 1 < |s| && s[cur + 1] == '\n' ==>
              TokenAt(s, cur) == Ok((Token(EOL, cur + 1, "\n"), cur + 2))
    ensures s[cur] == '\\' && cur + 1 == |s| ==> TokenAt(s, cur) == OutOfBounds(|s|)
  {
    if cur + 1 < |s| {
      assert s[cur + 1..cur + 2] == [s[cur + 1]];
    }
  }

  // Single steps of the scan, for proofs about whole command lines.

  /** A non-terminal token is followed by the scan from its new cursor. */
  lemma LexFromStep(s: string, cur: nat, t: Token, next: nat)
    requires cur <= next <= |s| && TokenAt(s, cur) == Ok((t, next)) && !IsTerminal(t.kind)
    ensures LexFrom(s, cur) == Prefixed([t], LexFrom(s, next))
  {
  }

  /** A terminal token ends the scan. */
  lemma LexFromLast(s: string, cur: nat, t: Token, next: nat)
    requires cur <= |s| && TokenAt(s, cur) == Ok((t, next)) && IsTerminal(t.kind)
    ensures LexFrom(s, cur) == Ok([t])
  {
  }

  /** The end of input gives EOF. */
  lemma TokenAtEnd(s: string)
    ensures TokenAt(s, |s|) == Ok((Token(EOF, |s|, ""), |s|))
  {
  }

  /** A default-case word whose extent is known. */
  lemma TokenAtWord(s: string, cur: nat, e: nat)
    requires cur < e <= |s|
    requires !(s[cur] in "\n\\> \t$'(){}[]" || s[cur] == EscapedSentinel)
    requires forall k :: cur < k < e ==> !IsTarget(SpecialChars, s[k])
    requires e < |s| ==> s[e - 1] != '\\' && IsTarget(SpecialChars, s[e])
    ensures TokenAt(s, cur) == Ok((Token(KeywordType(s[cur..e]), e, s[cur..e]), e))
  {
    var r := ScanNotEscaped(s, cur + 1, SpecialChars);
    if e < |s| {
      assert StopsUnescaped(s, SpecialChars, e);
    }
    if r.Some? {
      assert StopsUnescaped(s, SpecialChars, r.value);
      assert IsTarget(SpecialChars, s[r.value]);
    }
    assert r == if e == |s| then None else Some(e);
  }

  /** A blank run whose end is known. */
  lemma TokenAtBlanks(s: string, cur: nat, e: nat)
    requires cur < e <= |s|
    requires forall k :: cur <= k < e ==> IsBlank(s[k])
    requires e == |s| || !IsBlank(s[e])
    ensures TokenAt(s, cur) == Ok((Token(Whitespace, e, "\0"), e))
  {
    RunEndUnique(s, cur, e);
  }

  /** A single-quoted string whose closing quote is known. */
  lemma TokenAtQuote(s: string, cur: nat, j: nat)
    requires cur < j < |s| && s[cur] == '\'' && s[j] == '\''
    requires forall k :: cur < k < j ==> s[k] != '\'' && s[k] != '[' && s[k] != ']'
    ensures TokenAt(s, cur) == Ok((Token(StringLit, j + 1, s[cur + 1..j]), j + 1))
  {
    assert SeekStop(s, cur, ['\'']) == Some(j);
  }
}

