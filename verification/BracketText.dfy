/** What the bracket scanner makes of a text, told from the pieces the text is put together of (core/safety.py). */
module BracketText {
  import opened Prelude
  import opened BracketScanner

  /** A literal, a line comment with its newline, a block comment, or one character of code. */
  datatype Token = Literal(quote: char, body: string) | Line(body: string) | Block(body: string) | Code(c: char)

  /** The text after the last whole token: nothing, a line comment the text ends in, or what it ends inside. */
  datatype Tail = Nothing | LastLine(body: string) | OpenLiteral(quote: char, body: string) | OpenBlock(body: string)

  /** A literal's content as it is written: its quote doubled. */
  function Doubled(body: string, quote: char): string {
    if body == "" then "" else (if body[0] == quote then [quote, quote] else [body[0]]) + Doubled(body[1..], quote)
  }

  function TokenText(token: Token): string {
    match token
    case Literal(quote, body) => [quote] + Doubled(body, quote) + [quote]
    case Line(body) => "--" + body + "\n"
    case Block(body) => "/*" + body + "*/"
    case Code(c) => [c]
  }

  function TailText(tail: Tail): string {
    match tail
    case Nothing => ""
    case LastLine(body) => "--" + body
    case OpenLiteral(quote, body) => [quote] + Doubled(body, quote)
    case OpenBlock(body) => "/*" + body
  }

  function Text(tokens: seq<Token>, tail: Tail): string {
    if tokens == [] then TailText(tail) else TokenText(tokens[0]) + Text(tokens[1..], tail)
  }

  /** No newline. */
  ghost predicate OneLine(body: string) { forall i :: 0 <= i < |body| ==> body[i] != '\n' }

  /** No end of comment. */
  ghost predicate NoEnd(body: string) { forall i :: 0 <= i < |body| - 1 ==> !(body[i] == '*' && body[i + 1] == '/') }

  /** The token is whole, and what follows does not change how it is read: a literal is not followed by its own
    * quote, nor a dash by a dash, nor a slash by a star. */
  ghost predicate Stands(token: Token, rest: string) {
    match token
    case Literal(quote, _) => (quote == '\'' || quote == '"') && (rest == "" || rest[0] != quote)
    case Line(body) => OneLine(body)
    case Block(body) => NoEnd(body)
    case Code(c) =>
      c != '\'' && c != '"' && !(c == '-' && rest != "" && rest[0] == '-') && !(c == '/' && rest != "" && rest[0] == '*')
  }

  ghost predicate TailStands(tail: Tail) {
    match tail
    case Nothing => true
    case LastLine(body) => OneLine(body)
    case OpenLiteral(quote, _) => quote == '\'' || quote == '"'
    case OpenBlock(body) => NoEnd(body)
  }

  ghost predicate AllStand(tokens: seq<Token>, tail: Tail) {
    if tokens == [] then TailStands(tail)
    else Stands(tokens[0], Text(tokens[1..], tail)) && AllStand(tokens[1..], tail)
  }

  /** The brackets among the characters of code. */
  function BracketsOf(tokens: seq<Token>): string {
    if tokens == [] then ""
    else (if tokens[0].Code? && tokens[0].c in "()[]" then [tokens[0].c] else "") + BracketsOf(tokens[1..])
  }

  // ----- the lexer reads each piece whole -----

  lemma {:induction false} LineReads(body: string, rest: string)
    requires OneLine(body)
    ensures LineLen(body + "\n" + rest) == |body| + 1 && LineLen(body) == |body|
  {
    var s := body + "\n" + rest;
    if body != "" {
      assert s[1..] == body[1..] + "\n" + rest;
      LineReads(body[1..], rest);
    }
  }

  lemma {:induction false} BlockReads(body: string, rest: string)
    requires NoEnd(body)
    ensures BlockLen(body + "*/" + rest) == Some(|body| + 2) && BlockLen(body) == None
  {
    var s := body + "*/" + rest;
    if body != "" {
      assert s[1..] == body[1..] + "*/" + rest;
      BlockReads(body[1..], rest);
      assert !(s[0] == '*' && s[1] == '/');
    }
  }

  lemma {:induction false} LiteralReads(body: string, quote: char, rest: string)
    requires rest == "" || rest[0] != quote
    ensures LiteralLen(Doubled(body, quote) + [quote] + rest, quote) == Some(|Doubled(body, quote)| + 1)
    ensures LiteralLen(Doubled(body, quote), quote) == None
  {
    var s := Doubled(body, quote) + [quote] + rest;
    if body == "" {
      assert s == [quote] + rest;
    } else if body[0] == quote {
      var inner := Doubled(body[1..], quote);
      assert Doubled(body, quote) == [quote, quote] + inner;
      assert s[2..] == inner + [quote] + rest && Doubled(body, quote)[2..] == inner;
      LiteralReads(body[1..], quote, rest);
    } else {
      var inner := Doubled(body[1..], quote);
      assert Doubled(body, quote) == [body[0]] + inner;
      assert s[1..] == inner + [quote] + rest && Doubled(body, quote)[1..] == inner;
      LiteralReads(body[1..], quote, rest);
    }
  }

  /** The token is read whole, and counts if it is a bracket. */
  ghost predicate ReadsWhole(token: Token, rest: string) {
    var s := TokenText(token) + rest;
    && TokenText(token) != "" && TokenLen(s) == Some(|TokenText(token)|)
    && Contribution(s) == if token.Code? && token.c in "()[]" then [token.c] else ""
  }

  lemma QuotedLen(quote: char, content: string)
    requires quote == '\'' || quote == '"'
    ensures Contribution([quote] + content) == ""
    ensures TokenLen([quote] + content) == match LiteralLen(content, quote) case None => None case Some(n) => Some(1 + n)
  {
    assert ([quote] + content)[1..] == content;
  }

  lemma LiteralTokenReads(quote: char, body: string, rest: string)
    requires Stands(Literal(quote, body), rest)
    ensures ReadsWhole(Literal(quote, body), rest)
  {
    var content := Doubled(body, quote) + [quote] + rest;
    LiteralReads(body, quote, rest);
    QuotedLen(quote, content);
    assert TokenText(Literal(quote, body)) + rest == [quote] + content;
  }

  lemma LineTokenReads(body: string, rest: string)
    requires OneLine(body)
    ensures ReadsWhole(Line(body), rest)
  {
    var s := TokenText(Line(body)) + rest;
    LineReads("--" + body, rest);
    assert s == ("--" + body) + "\n" + rest;
    assert s[0] == '-' && s[1] == '-';
  }

  lemma BlockTokenReads(body: string, rest: string)
    requires NoEnd(body)
    ensures ReadsWhole(Block(body), rest)
  {
    var s := TokenText(Block(body)) + rest;
    BlockReads(body, rest);
    assert s[0] == '/' && s[1] == '*' && s[2..] == body + "*/" + rest;
  }

  lemma CodeTokenReads(c: char, rest: string)
    requires Stands(Code(c), rest)
    ensures ReadsWhole(Code(c), rest)
  {
    var s := [c] + rest;
    assert s[0] == c && (|s| > 1 ==> s[1] == rest[0]);
    assert c in "()[]" <==> c == '(' || c == ')' || c == '[' || c == ']';
  }

  lemma TokenReads(token: Token, rest: string)
    requires Stands(token, rest)
    ensures ReadsWhole(token, rest)
  {
    match token
    case Literal(quote, body) => LiteralTokenReads(quote, body, rest);
    case Line(body) => LineTokenReads(body, rest);
    case Block(body) => BlockTokenReads(body, rest);
    case Code(c) => CodeTokenReads(c, rest);
  }

  lemma TailReads(tail: Tail)
    requires TailStands(tail)
    ensures tail == Nothing ==> TailText(tail) == ""
    ensures tail.LastLine? ==> TokenLen(TailText(tail)) == Some(|TailText(tail)|) && Contribution(TailText(tail)) == ""
    ensures tail.OpenLiteral? || tail.OpenBlock? ==> TailText(tail) != "" && TokenLen(TailText(tail)) == None
  {
    var s := TailText(tail);
    match tail
    case Nothing =>
    case LastLine(body) => LineReads("--" + body, "");
    case OpenLiteral(quote, body) =>
      LiteralReads(body, quote, "");
      assert s[1..] == Doubled(body, quote);
    case OpenBlock(body) =>
      BlockReads(body, "");
      assert s[2..] == body;
  }

  function OutcomeOf(tokens: seq<Token>, tail: Tail): Lexed {
    match tail
    case OpenLiteral(quote, _) => OpenQuote(quote)
    case OpenBlock(_) => OpenComment
    case _ => Brackets(BracketsOf(tokens))
  }

  /** A text put together of whole tokens lexes to their brackets, or to what it ends inside. */
  lemma {:induction false} TextLexes(tokens: seq<Token>, tail: Tail)
    requires AllStand(tokens, tail)
    ensures Lex(Text(tokens, tail)) == OutcomeOf(tokens, tail)
  {
    var s := Text(tokens, tail);
    if tokens == [] {
      TailReads(tail);
      if tail.LastLine? {
        assert s[|s|..] == "" && Lex("") == Brackets("");
      }
    } else {
      var rest := Text(tokens[1..], tail);
      TokenReads(tokens[0], rest);
      TextLexes(tokens[1..], tail);
      assert s[|TokenText(tokens[0])|..] == rest;
    }
  }

  // ----- every text is put together of such pieces -----

  lemma {:induction false} Undoubled(s: string, quote: char) returns (closed: bool, body: string, rest: string)
    ensures closed ==> s == Doubled(body, quote) + [quote] + rest && (rest == "" || rest[0] != quote)
    ensures !closed ==> s == Doubled(body, quote)
    decreases |s|
  {
    if s == "" {
      closed, body, rest := false, "", "";
    } else if s[0] != quote {
      closed, body, rest := Undoubled(s[1..], quote);
      body := [s[0]] + body;
      assert body[1..] == body[1..] && Doubled(body, quote) == [s[0]] + Doubled(body[1..], quote);
      assert s == [s[0]] + s[1..];
    } else if |s| > 1 && s[1] == quote {
      closed, body, rest := Undoubled(s[2..], quote);
      body := [quote] + body;
      assert Doubled(body, quote) == [quote, quote] + Doubled(body[1..], quote);
      assert s == [quote, quote] + s[2..];
    } else {
      closed, body, rest := true, "", s[1..];
      assert s == [quote] + rest;
    }
  }

  lemma FirstNewline(s: string, from: nat) returns (at: nat)
    requires from <= |s|
    ensures from <= at <= |s| && OneLine(s[from..at]) && (at < |s| ==> s[at] == '\n')
  {
    at := from;
    while at < |s| && s[at] != '\n'
      invariant from <= at <= |s| && forall k :: from <= k < at ==> s[k] != '\n'
    {
      at := at + 1;
    }
  }

  lemma FirstEnd(s: string, from: nat) returns (at: nat)
    requires from <= |s|
    ensures from <= at <= |s| && NoEnd(s[from..at]) && (at < |s| ==> at + 1 < |s| && s[at] == '*' && s[at + 1] == '/')
  {
    at := from;
    while at < |s| && !(at + 1 < |s| && s[at] == '*' && s[at + 1] == '/')
      invariant from <= at <= |s|
      invariant forall k :: from <= k < at && k + 1 < |s| ==> !(s[k] == '*' && s[k + 1] == '/')
    {
      at := at + 1;
    }
  }

  /** The first piece of a text, or the tail the text is. */
  ghost predicate IsFirstPiece(s: string, whole: bool, token: Token, tail: Tail, rest: string) {
    if whole then s == TokenText(token) + rest && Stands(token, rest) && |rest| < |s| else s == TailText(tail) && TailStands(tail)
  }

  lemma LinePiece(s: string) returns (whole: bool, token: Token, tail: Tail, rest: string)
    requires |s| >= 2 && s[0] == '-' && s[1] == '-'
    ensures IsFirstPiece(s, whole, token, tail, rest)
  {
    var at := FirstNewline(s, 2);
    whole, token, tail, rest := at < |s|, Line(s[2..at]), LastLine(s[2..]), if at < |s| then s[at + 1..] else "";
    if whole {
      assert s == "--" + s[2..at] + "\n" + rest;
    } else {
      assert s[2..at] == s[2..] && s == "--" + s[2..];
    }
  }

  lemma BlockPiece(s: string) returns (whole: bool, token: Token, tail: Tail, rest: string)
    requires |s| >= 2 && s[0] == '/' && s[1] == '*'
    ensures IsFirstPiece(s, whole, token, tail, rest)
  {
    var at := FirstEnd(s, 2);
    whole, token, tail, rest := at < |s|, Block(s[2..at]), OpenBlock(s[2..]), if at < |s| then s[at + 2..] else "";
    if whole {
      assert s == "/*" + s[2..at] + "*/" + rest;
    } else {
      assert s[2..at] == s[2..] && s == "/*" + s[2..];
    }
  }

  lemma LiteralPiece(s: string) returns (whole: bool, token: Token, tail: Tail, rest: string)
    requires s != "" && (s[0] == '\'' || s[0] == '"')
    ensures IsFirstPiece(s, whole, token, tail, rest)
  {
    var closed, body, after := Undoubled(s[1..], s[0]);
    whole, token, tail, rest := closed, Literal(s[0], body), OpenLiteral(s[0], body), after;
    assert s == [s[0]] + s[1..];
    if whole {
      assert s == TokenText(token) + rest;
    }
  }

  lemma FirstPiece(s: string) returns (whole: bool, token: Token, tail: Tail, rest: string)
    requires s != ""
    ensures IsFirstPiece(s, whole, token, tail, rest)
  {
    if |s| >= 2 && s[0] == '-' && s[1] == '-' {
      whole, token, tail, rest := LinePiece(s);
    } else if |s| >= 2 && s[0] == '/' && s[1] == '*' {
      whole, token, tail, rest := BlockPiece(s);
    } else if s[0] == '\'' || s[0] == '"' {
      whole, token, tail, rest := LiteralPiece(s);
    } else {
      whole, token, tail, rest := true, Code(s[0]), Nothing, s[1..];
      assert s == [s[0]] + s[1..];
    }
  }

  /** Any text whatever is whole tokens and a tail. */
  lemma {:induction false} EveryTextIsTokens(s: string) returns (tokens: seq<Token>, tail: Tail)
    ensures AllStand(tokens, tail) && Text(tokens, tail) == s
    decreases |s|
  {
    if s == "" {
      tokens, tail := [], Nothing;
    } else {
      var whole, token, last, rest := FirstPiece(s);
      if whole {
        tokens, tail := EveryTextIsTokens(rest);
        assert ([token] + tokens)[1..] == tokens;
        tokens := [token] + tokens;
      } else {
        tokens, tail := [], last;
      }
    }
  }

  // ----- nesting -----

  /** How many of the tokens open a bracket, less how many close one. */
  function Nesting(tokens: seq<Token>): int {
    if tokens == [] then 0
    else
      var last := tokens[|tokens| - 1];
      Nesting(tokens[..|tokens| - 1])
      + (if last == Code('(') || last == Code('[') then 1 else if last == Code(')') || last == Code(']') then -1 else 0)
  }

  /** The deepest nesting at any point of the tokens. */
  ghost predicate IsDeepest(tokens: seq<Token>, depth: int) {
    && (exists k :: 0 <= k <= |tokens| && Nesting(tokens[..k]) == depth)
    && forall k :: 0 <= k <= |tokens| ==> Nesting(tokens[..k]) <= depth
  }

  lemma {:induction false} BracketsOneMore(tokens: seq<Token>, last: Token)
    ensures BracketsOf(tokens + [last]) == BracketsOf(tokens) + (if last.Code? && last.c in "()[]" then [last.c] else "")
  {
    if tokens == [] {
      assert [last][1..] == [];
    } else {
      assert (tokens + [last])[1..] == tokens[1..] + [last];
      BracketsOneMore(tokens[1..], last);
    }
  }

  lemma ExcessOneMore(code: string, c: char)
    requires c in "()[]"
    ensures Excess(code + [c]) == Excess(code) + (if c == '(' || c == '[' then 1 else -1)
  {
    assert (code + [c])[..|code|] == code;
    assert c == '(' || c == ')' || c == '[' || c == ']';
  }

  lemma {:induction false} NestingIsExcess(tokens: seq<Token>)
    ensures Excess(BracketsOf(tokens)) == Nesting(tokens)
    decreases |tokens|
  {
    if tokens != [] {
      var before, last := tokens[..|tokens| - 1], tokens[|tokens| - 1];
      NestingIsExcess(before);
      BracketsOneMore(before, last);
      assert tokens == before + [last];
      if last.Code? && last.c in "()[]" {
        ExcessOneMore(BracketsOf(before), last.c);
        assert last == Code(last.c);
      } else {
        assert BracketsOf(before) + "" == BracketsOf(before);
        assert '(' in "()[]" && ')' in "()[]" && '[' in "()[]" && ']' in "()[]";
      }
    }
  }

  lemma {:induction false} PrefixOfBrackets(tokens: seq<Token>, k: nat)
    requires k <= |tokens|
    ensures BracketsOf(tokens[..k]) <= BracketsOf(tokens)
    decreases |tokens|
  {
    if k < |tokens| {
      var before := tokens[..|tokens| - 1];
      PrefixOfBrackets(before, k);
      BracketsOneMore(before, tokens[|tokens| - 1]);
      assert tokens == before + [tokens[|tokens| - 1]] && before[..k] == tokens[..k];
    } else {
      assert tokens[..k] == tokens;
    }
  }

  lemma {:induction false} BracketsByPrefix(tokens: seq<Token>, j: nat) returns (k: nat)
    requires j <= |BracketsOf(tokens)|
    ensures k <= |tokens| && BracketsOf(tokens[..k]) == BracketsOf(tokens)[..j]
    decreases |tokens|
  {
    if j == |BracketsOf(tokens)| {
      k := |tokens|;
      assert tokens[..k] == tokens;
    } else {
      var before := tokens[..|tokens| - 1];
      BracketsOneMore(before, tokens[|tokens| - 1]);
      assert tokens == before + [tokens[|tokens| - 1]];
      k := BracketsByPrefix(before, j);
      assert before[..k] == tokens[..k];
    }
  }

  lemma DeepestIsPeak(tokens: seq<Token>, depth: int)
    requires IsPeak(BracketsOf(tokens), depth)
    ensures IsDeepest(tokens, depth)
  {
    var code := BracketsOf(tokens);
    forall k | 0 <= k <= |tokens| ensures Nesting(tokens[..k]) <= depth {
      NestingIsExcess(tokens[..k]);
      PrefixOfBrackets(tokens, k);
      assert BracketsOf(tokens[..k]) == code[..|BracketsOf(tokens[..k])|];
    }
    var j :| 0 <= j <= |code| && Excess(code[..j]) == depth;
    var k := BracketsByPrefix(tokens, j);
    NestingIsExcess(tokens[..k]);
  }

  /** What the scanner answers on a text, from the pieces of it: the quote or the comment it ends inside, or the
    * deepest nesting of the brackets that stand in code. */
  lemma ScannedByPieces(tokens: seq<Token>, tail: Tail, outcome: Outcome)
    requires AllStand(tokens, tail) && Measures(outcome, Lex(Text(tokens, tail)))
    ensures tail.OpenLiteral? ==> outcome == UnterminatedQuote(tail.quote)
    ensures tail.OpenBlock? ==> outcome == UnterminatedComment
    ensures tail.Nothing? || tail.LastLine? ==> outcome.Depth? && IsDeepest(tokens, outcome.peak)
  {
    TextLexes(tokens, tail);
    if tail.Nothing? || tail.LastLine? {
      DeepestIsPeak(tokens, outcome.peak);
    }
  }

  // ----- inserted text -----

  function Padded(token: Token): seq<Token> { [Code(' '), token, Code(' ')] }

  lemma {:induction false} BracketsTogether(a: seq<Token>, b: seq<Token>)
    ensures BracketsOf(a + b) == BracketsOf(a) + BracketsOf(b)
    decreases |a|
  {
    if a == [] {
      assert a + b == b;
    } else {
      assert (a + b)[1..] == a[1..] + b;
      BracketsTogether(a[1..], b);
    }
  }

  /** What stands before one text stands before another with the same first character. */
  lemma StandsBefore(token: Token, rest: string, other: string)
    requires Stands(token, rest) && rest != "" && other != "" && rest[0] == other[0]
    ensures Stands(token, other)
  {
  }

  lemma StartsWithToken(tokens: seq<Token>, tail: Tail)
    requires tokens != []
    ensures Text(tokens, tail) != "" && TokenText(tokens[0]) != "" && Text(tokens, tail)[0] == TokenText(tokens[0])[0]
  {
  }

  lemma PaddedStands(token: Token, after: seq<Token>, tail: Tail)
    requires AllStand(after, tail) && !token.Code? && Stands(token, " ")
    ensures AllStand(Padded(token) + after, tail)
  {
    var spaced := [Code(' ')] + after;
    assert spaced[1..] == after && ([token] + spaced)[1..] == spaced;
    StartsWithToken(spaced, tail);
    StandsBefore(token, " ", Text(spaced, tail));
    assert AllStand([token] + spaced, tail);
    assert (Padded(token) + after)[1..] == [token] + spaced;
  }

  /** Before a space any token stands. */
  lemma StandsBeforeSpace(token: Token, rest: string, other: string)
    requires Stands(token, rest) && other != "" && other[0] == ' '
    ensures Stands(token, other)
  {
  }

  lemma FirstAndRest(token: Token, rest: seq<Token>, tail: Tail)
    ensures AllStand([token] + rest, tail) <==> Stands(token, Text(rest, tail)) && AllStand(rest, tail)
    ensures Text([token] + rest, tail) == TokenText(token) + Text(rest, tail)
  {
    assert ([token] + rest)[1..] == rest;
  }

  /** A token stands before another text too, if that starts with a space or the same way. */
  lemma FirstStays(token: Token, plain: seq<Token>, padded: seq<Token>, tail: Tail)
    requires Stands(token, Text(plain, tail)) && padded != []
    requires padded[0] == Code(' ') || (plain != [] && padded[0] == plain[0])
    ensures Stands(token, Text(padded, tail))
  {
    StartsWithToken(padded, tail);
    if padded[0] == Code(' ') {
      StandsBeforeSpace(token, Text(plain, tail), Text(padded, tail));
    } else {
      StartsWithToken(plain, tail);
      StandsBefore(token, Text(plain, tail), Text(padded, tail));
    }
  }

  lemma InsertedStep(first: Token, plain: seq<Token>, padded: seq<Token>, tail: Tail)
    requires AllStand([first] + plain, tail) && AllStand(padded, tail) && padded != []
    requires padded[0] == Code(' ') || (plain != [] && padded[0] == plain[0])
    ensures AllStand([first] + padded, tail)
  {
    FirstAndRest(first, plain, tail);
    FirstStays(first, plain, padded, tail);
    FirstAndRest(first, padded, tail);
  }

  /** The pieces with the padded token among them. */
  function Inserted(before: seq<Token>, token: Token, after: seq<Token>): (tokens: seq<Token>)
    ensures tokens != [] && tokens[0] == if before == [] then Code(' ') else before[0]
  {
    before + (Padded(token) + after)
  }

  lemma FromFirst(before: seq<Token>, rest: seq<Token>)
    requires before != []
    ensures before + rest == [before[0]] + (before[1..] + rest)
  {
  }

  lemma InsertedFirst(token: Token, after: seq<Token>, tail: Tail)
    requires AllStand([] + after, tail) && !token.Code? && Stands(token, " ")
    ensures AllStand(Inserted([], token, after), tail)
  {
    assert [] + after == after && Inserted([], token, after) == Padded(token) + after;
    PaddedStands(token, after, tail);
  }

  lemma {:induction false} InsertedStands(before: seq<Token>, token: Token, after: seq<Token>, tail: Tail)
    requires AllStand(before + after, tail) && !token.Code? && Stands(token, " ")
    ensures AllStand(Inserted(before, token, after), tail)
    decreases |before|
  {
    if before == [] {
      InsertedFirst(token, after, tail);
    } else {
      var first, others := before[0], before[1..];
      FromFirst(before, after);
      FromFirst(before, Padded(token) + after);
      FirstAndRest(first, others + after, tail);
      InsertedStands(others, token, after, tail);
      InsertedStep(first, others + after, Inserted(others, token, after), tail);
    }
  }

  lemma PaddingIsNoBracket(token: Token)
    requires !token.Code?
    ensures BracketsOf(Padded(token)) == ""
  {
    var all := Padded(token);
    assert all[1..] == [token, Code(' ')] && all[1..][1..] == [Code(' ')] && all[1..][1..][1..] == [];
    assert BracketsOf(all[1..][1..]) == "" && BracketsOf(all[1..]) == "";
  }

  lemma InsertedBrackets(before: seq<Token>, token: Token, after: seq<Token>)
    requires !token.Code?
    ensures BracketsOf(Inserted(before, token, after)) == BracketsOf(before + after)
  {
    var padded := Padded(token);
    PaddingIsNoBracket(token);
    BracketsTogether(before, after);
    BracketsTogether(padded, after);
    BracketsTogether(before, padded + after);
  }

  /** A literal or comment put with a space on each side between any two pieces of any text leaves the brackets
    * and the refusal as they were. */
  lemma InsertionByPieces(before: seq<Token>, token: Token, after: seq<Token>, tail: Tail)
    requires AllStand(before + after, tail) && !token.Code? && Stands(token, " ")
    ensures Lex(Text(Inserted(before, token, after), tail)) == Lex(Text(before + after, tail))
  {
    var plain, padded := before + after, Inserted(before, token, after);
    InsertedStands(before, token, after, tail);
    InsertedBrackets(before, token, after);
    TextLexes(plain, tail);
    TextLexes(padded, tail);
  }

  // ----- depth of a tree -----

  /** Child by child down from the root. */
  predicate IsPath(t: Tree, path: seq<nat>)
    decreases |path|
  {
    path == [] || (path[0] < |t.kids| && IsPath(t.kids[path[0]], path[1..]))
  }

  lemma {:induction false} PathWithin(t: Tree, path: seq<nat>)
    requires IsPath(t, path)
    ensures |path| <= Height(t)
    decreases |path|
  {
    if path != [] {
      PathWithin(t.kids[path[0]], path[1..]);
      KidWithin(t.kids, path[0]);
    }
  }

  lemma {:induction false} KidWithin(kids: seq<Tree>, i: nat)
    requires i < |kids|
    ensures 1 + Height(kids[i]) <= KidsHeight(kids)
  {
    if i > 0 {
      KidWithin(kids[1..], i - 1);
    }
  }

  lemma {:induction false} LongestPath(t: Tree) returns (path: seq<nat>)
    ensures IsPath(t, path) && |path| == Height(t)
    decreases t, 1
  {
    path := [];
    if t.kids != [] {
      var i := TallestKid(t.kids);
      var rest := LongestPath(t.kids[i]);
      path := [i] + rest;
      assert path[1..] == rest;
    }
  }

  lemma {:induction false} TallestKid(kids: seq<Tree>) returns (i: nat)
    requires kids != []
    ensures i < |kids| && KidsHeight(kids) == 1 + Height(kids[i])
  {
    if 1 + Height(kids[0]) == KidsHeight(kids) {
      i := 0;
    } else {
      assert KidsHeight(kids) == Max(1 + Height(kids[0]), KidsHeight(kids[1..]));
      assert KidsHeight(kids[1..]) > 0;
      i := TallestKid(kids[1..]);
      i := i + 1;
    }
  }

  /** A tree is too deep exactly when some way down from its root is more than 100 steps long. */
  lemma DeepIffLongPath(t: Tree)
    ensures Height(t) > MAX_NESTING_DEPTH <==> exists path :: |path| > 100 && IsPath(t, path)
  {
    var longest := LongestPath(t);
    forall path | IsPath(t, path) ensures |path| <= Height(t) {
      PathWithin(t, path);
    }
  }
}
