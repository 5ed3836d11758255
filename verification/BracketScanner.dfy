/** Nesting checks made before and after parsing (core/safety.py): the raw-text bracket scanner against a
  * recursive lexer, and the iterative depth check against the height of the tree. */
module BracketScanner {
  import opened Prelude

  predicate IsQuote(c: char) { c == '\'' || c == '"' }

  predicate IsOpener(c: char) { c == '(' || c == '[' }

  predicate IsCloser(c: char) { c == ')' || c == ']' }

  predicate StartsLine(s: string) { |s| >= 2 && s[0] == '-' && s[1] == '-' }

  predicate StartsBlock(s: string) { |s| >= 2 && s[0] == '/' && s[1] == '*' }

  // ----- the lexer: one token after another -----

  /** Up to and including the next newline, or everything. */
  function LineLen(s: string): nat {
    if s == "" then 0 else if s[0] == '\n' then 1 else 1 + LineLen(s[1..])
  }

  /** Up to and including the next end of comment. */
  function BlockLen(s: string): Option<nat> {
    if |s| < 2 then None
    else if s[0] == '*' && s[1] == '/' then Some(2)
    else
      match BlockLen(s[1..])
      case None => None
      case Some(n) => Some(n + 1)
  }

  /** The rest of a literal, closing quote included; a doubled quote stands for one inside it. */
  function LiteralLen(s: string, quote: char): Option<nat> {
    if s == "" then None
    else
      var doubled := s[0] == quote && |s| > 1 && s[1] == quote;
      if s[0] == quote && !doubled then Some(1)
      else
        var n := if doubled then 2 else 1;
        match LiteralLen(s[n..], quote)
        case None => None
        case Some(m) => Some(n + m)
  }

  /** The first token: a comment, a literal, or one character of code. */
  function TokenLen(s: string): (len: Option<nat>)
    requires s != ""
    ensures len.Some? ==> 0 < len.value <= |s|
  {
    LengthsWithin(s);
    if StartsLine(s) then Some(LineLen(s))
    else if StartsBlock(s) then (match BlockLen(s[2..]) case None => None case Some(n) => Some(2 + n))
    else if IsQuote(s[0]) then (match LiteralLen(s[1..], s[0]) case None => None case Some(n) => Some(1 + n))
    else Some(1)
  }

  lemma {:induction false} LineWithin(s: string)
    ensures LineLen(s) <= |s| && (s != "" ==> LineLen(s) > 0)
  {
    if s != "" { LineWithin(s[1..]); }
  }

  lemma {:induction false} BlockWithin(s: string)
    ensures BlockLen(s).Some? ==> BlockLen(s).value <= |s|
  {
    if |s| >= 2 { BlockWithin(s[1..]); }
  }

  lemma {:induction false} LiteralWithin(s: string, quote: char)
    ensures LiteralLen(s, quote).Some? ==> LiteralLen(s, quote).value <= |s|
    decreases |s|
  {
    if s != "" {
      LiteralWithin(s[1..], quote);
      if |s| > 1 { LiteralWithin(s[2..], quote); }
    }
  }

  lemma LengthsWithin(s: string)
    requires s != ""
    ensures 0 < LineLen(s) <= |s|
    ensures |s| >= 2 && BlockLen(s[2..]).Some? ==> 2 + BlockLen(s[2..]).value <= |s|
    ensures LiteralLen(s[1..], s[0]).Some? ==> 1 + LiteralLen(s[1..], s[0]).value <= |s|
  {
    LineWithin(s);
    if |s| >= 2 { BlockWithin(s[2..]); }
    LiteralWithin(s[1..], s[0]);
  }

  /** The brackets that are code, in order, or what the text ends inside. */
  datatype Lexed = Brackets(code: string) | OpenQuote(quote: char) | OpenComment

  function After(seen: string, rest: Lexed): Lexed {
    match rest
    case Brackets(code) => Brackets(seen + code)
    case _ => rest
  }

  /** What a token contributes: a bracket, if it is one. */
  function Contribution(s: string): string
    requires s != ""
  {
    if IsOpener(s[0]) || IsCloser(s[0]) then [s[0]] else ""
  }

  function Lex(s: string): Lexed
    decreases |s|
  {
    if s == "" then Brackets("")
    else if TokenLen(s).None? then (if StartsBlock(s) then OpenComment else OpenQuote(s[0]))
    else After(Contribution(s), Lex(s[TokenLen(s).value..]))
  }

  // ----- nesting -----

  function Excess(code: string): int {
    if code == "" then 0
    else
      var n := |code| - 1;
      Excess(code[..n]) + (if IsOpener(code[n]) then 1 else if IsCloser(code[n]) then -1 else 0)
  }

  /** The largest excess of openers over closers at any point of the code. */
  ghost predicate IsPeak(code: string, peak: int) {
    && (exists k :: 0 <= k <= |code| && Excess(code[..k]) == peak)
    && forall k :: 0 <= k <= |code| ==> Excess(code[..k]) <= peak
  }

  lemma PeakOneMore(code: string, c: char, peak: int)
    requires IsPeak(code, peak)
    ensures IsPeak(code + [c], Max(peak, Excess(code + [c])))
  {
    var longer := code + [c];
    assert forall k :: 0 <= k <= |code| ==> longer[..k] == code[..k];
    assert longer[..|longer|] == longer;
    var k :| 0 <= k <= |code| && Excess(code[..k]) == peak;
    assert Excess(longer[..k]) == peak;
  }

  // ----- the scanner -----

  datatype Outcome = Depth(peak: int) | UnterminatedQuote(quote: char) | UnterminatedComment

  /** The scanner's answer is the lexer's: it refuses exactly when the text ends inside a literal or block
    * comment, and otherwise measures the deepest nesting of the code brackets. */
  ghost predicate Measures(outcome: Outcome, lexed: Lexed) {
    match lexed
    case Brackets(code) => outcome.Depth? && IsPeak(code, outcome.peak)
    case OpenQuote(quote) => outcome == UnterminatedQuote(quote)
    case OpenComment => outcome == UnterminatedComment
  }

  /** What the rest of the text lexes to, from code or from inside a literal. */
  function Rest(s: string, quote: Option<char>): Lexed {
    if quote.None? then Lex(s)
    else
      LiteralWithin(s, quote.value);
      match LiteralLen(s, quote.value)
      case None => OpenQuote(quote.value)
      case Some(n) => Lex(s[n..])
  }

  lemma RestInLiteral(s: string, quote: char)
    requires s != ""
    ensures var doubled := s[0] == quote && |s| > 1 && s[1] == quote;
      Rest(s, Some(quote)) ==
        if s[0] == quote && !doubled then Lex(s[1..]) else Rest(s[if doubled then 2 else 1..], Some(quote))
  {
    LiteralWithin(s, quote);
    var doubled := s[0] == quote && |s| > 1 && s[1] == quote;
    if doubled || s[0] != quote {
      var k := if doubled then 2 else 1;
      LiteralWithin(s[k..], quote);
      if LiteralLen(s[k..], quote).Some? {
        assert s[k..][LiteralLen(s[k..], quote).value..] == s[LiteralLen(s, quote).value..];
      }
    }
  }

  lemma RestInCode(s: string)
    requires s != "" && !StartsLine(s) && !StartsBlock(s)
    ensures IsQuote(s[0]) ==> Rest(s, None) == Rest(s[1..], Some(s[0]))
    ensures !IsQuote(s[0]) ==> Rest(s, None) == After(Contribution(s), Rest(s[1..], None))
  {
    LengthsWithin(s);
    if IsQuote(s[0]) {
      var rest := Rest(s[1..], Some(s[0]));
      if LiteralLen(s[1..], s[0]).Some? {
        assert s[1..][LiteralLen(s[1..], s[0]).value..] == s[TokenLen(s).value..];
        assert Contribution(s) == "" && After("", rest) == rest;
      }
    }
  }

  lemma RestAfterComment(s: string, n: nat)
    requires s != "" && (StartsLine(s) || StartsBlock(s)) && TokenLen(s) == Some(n)
    ensures Rest(s, None) == Rest(s[n..], None)
  {
    assert Contribution(s) == "" && After("", Lex(s[n..])) == Lex(s[n..]);
  }

  lemma AfterAssociates(a: string, b: string, rest: Lexed)
    ensures After(a, After(b, rest)) == After(a + b, rest)
  {
    if rest.Brackets? {
      assert a + (b + rest.code) == (a + b) + rest.code;
    }
  }

  /** Everything before i is lexed: it contributed `seen`, and the text resumes in code or in a literal. */
  ghost predicate Scanned(sql: string, i: nat, seen: string, quote: Option<char>)
    requires i <= |sql|
  {
    Lex(sql) == After(seen, Rest(sql[i..], quote))
  }

  /** Inside a literal: a doubled quote stays in it, a lone one ends it, anything else is data. */
  lemma ScanLiteral(sql: string, i: nat, seen: string, quote: char)
    requires i < |sql| && Scanned(sql, i, seen, Some(quote))
    ensures sql[i] == quote && i + 1 < |sql| && sql[i + 1] == quote ==> Scanned(sql, i + 2, seen, Some(quote))
    ensures sql[i] == quote && !(i + 1 < |sql| && sql[i + 1] == quote) ==> Scanned(sql, i + 1, seen, None)
    ensures sql[i] != quote ==> Scanned(sql, i + 1, seen, Some(quote))
  {
    RestInLiteral(sql[i..], quote);
    assert sql[i..][1..] == sql[i + 1..];
    if i + 1 < |sql| {
      assert sql[i..][2..] == sql[i + 2..];
    }
  }

  ghost predicate OccursAt(s: string, pattern: string, at: int) {
    0 <= at && at + |pattern| <= |s| && s[at..at + |pattern|] == pattern
  }

  /** The first place at or after `from` where the pattern occurs, or -1. */
  ghost predicate IsFound(s: string, pattern: string, from: nat, at: int) {
    && (at == -1 || (from <= at && OccursAt(s, pattern, at)))
    && forall k :: from <= k && (at == -1 || k < at) ==> !OccursAt(s, pattern, k)
  }

  method Find(s: string, pattern: string, from: nat) returns (at: int)
    ensures IsFound(s, pattern, from, at)
  {
    at := from;
    while at + |pattern| <= |s|
      invariant from <= at && forall k :: from <= k < at ==> !OccursAt(s, pattern, k)
    {
      if s[at..at + |pattern|] == pattern {
        return;
      }
      at := at + 1;
    }
    at := -1;
  }

  lemma {:induction false} LineByFind(sql: string, i: nat, at: int)
    requires i <= |sql| && IsFound(sql, "\n", i, at)
    ensures LineLen(sql[i..]) == if at == -1 then |sql| - i else at + 1 - i
    decreases |sql| - i
  {
    if i < |sql| {
      assert sql[i..][1..] == sql[i + 1..] && sql[i..i + 1] == [sql[i]];
      if sql[i] == '\n' {
        assert OccursAt(sql, "\n", i);
      } else {
        assert !OccursAt(sql, "\n", i);
        LineByFind(sql, i + 1, at);
      }
    }
  }

  lemma {:induction false} BlockByFind(sql: string, i: nat, at: int)
    requires i <= |sql| && IsFound(sql, "*/", i, at)
    ensures BlockLen(sql[i..]) == if at == -1 then None else Some(at + 2 - i)
    decreases |sql| - i
  {
    if i + 2 <= |sql| {
      assert sql[i..][1..] == sql[i + 1..] && sql[i..i + 2] == [sql[i], sql[i + 1]];
      if sql[i] == '*' && sql[i + 1] == '/' {
        assert OccursAt(sql, "*/", i);
      } else {
        assert !OccursAt(sql, "*/", i);
        BlockByFind(sql, i + 1, at);
      }
    }
  }

  /** A line comment ends with its line. */
  lemma ScanLine(sql: string, i: nat, seen: string, at: int)
    requires i < |sql| && Scanned(sql, i, seen, None) && StartsLine(sql[i..]) && IsFound(sql, "\n", i, at)
    ensures Scanned(sql, if at == -1 then |sql| else at + 1, seen, None)
  {
    LineByFind(sql, i, at);
    var n := LineLen(sql[i..]);
    RestAfterComment(sql[i..], n);
    assert sql[i..][n..] == sql[i + n..];
  }

  /** A block comment ends at its end marker, and without one nothing after it was read. */
  lemma ScanBlock(sql: string, i: nat, seen: string, at: int)
    requires i < |sql| && Scanned(sql, i, seen, None) && StartsBlock(sql[i..]) && IsFound(sql, "*/", i + 2, at)
    ensures at == -1 ==> Lex(sql) == OpenComment
    ensures at != -1 ==> Scanned(sql, at + 2, seen, None)
  {
    BlockByFind(sql, i + 2, at);
    assert sql[i..][2..] == sql[i + 2..];
    if at != -1 {
      RestAfterComment(sql[i..], at + 2 - i);
      assert sql[i..][at + 2 - i..] == sql[at + 2..];
    }
  }

  /** One character of code: a quote opens a literal, a bracket counts, the rest passes. */
  lemma ScanCode(sql: string, i: nat, seen: string)
    requires i < |sql| && Scanned(sql, i, seen, None) && !StartsLine(sql[i..]) && !StartsBlock(sql[i..])
    ensures IsQuote(sql[i]) ==> Scanned(sql, i + 1, seen, Some(sql[i]))
    ensures !IsQuote(sql[i]) ==> Scanned(sql, i + 1, seen + Contribution(sql[i..]), None)
  {
    RestInCode(sql[i..]);
    assert sql[i..][1..] == sql[i + 1..];
    AfterAssociates(seen, Contribution(sql[i..]), Rest(sql[i + 1..], None));
  }

  /** A character of code that opens no literal, counted. */
  lemma CountCode(sql: string, i: nat, seen: string, peak: int)
    requires i < |sql| && Scanned(sql, i, seen, None) && !StartsLine(sql[i..]) && !StartsBlock(sql[i..]) && !IsQuote(sql[i])
    requires IsPeak(seen, peak)
    ensures !IsOpener(sql[i]) && !IsCloser(sql[i]) ==> Scanned(sql, i + 1, seen, None)
    ensures IsOpener(sql[i]) || IsCloser(sql[i]) ==> Scanned(sql, i + 1, seen + [sql[i]], None)
    ensures IsOpener(sql[i]) || IsCloser(sql[i]) ==> Excess(seen + [sql[i]]) == if IsOpener(sql[i]) then Excess(seen) + 1 else Excess(seen) - 1
    ensures IsOpener(sql[i]) || IsCloser(sql[i]) ==> IsPeak(seen + [sql[i]], Max(peak, Excess(seen + [sql[i]])))
  {
    ScanCode(sql, i, seen);
    PeakOneMore(seen, sql[i], peak);
    assert (seen + [sql[i]])[..|seen|] == seen && seen + "" == seen;
  }

  lemma ScanStart(sql: string)
    ensures Scanned(sql, 0, "", None) && Excess("") == 0 && IsPeak("", 0)
  {
    assert sql[0..] == sql && After("", Lex(sql)) == Lex(sql) && ""[..0] == "";
  }

  lemma ScanEnd(sql: string, seen: string, quote: Option<char>, peak: int)
    requires Scanned(sql, |sql|, seen, quote) && IsPeak(seen, peak)
    ensures Measures(if quote.Some? then UnterminatedQuote(quote.value) else Depth(peak), Lex(sql))
  {
    assert sql[|sql|..] == "" && seen + "" == seen;
  }

  method BracketDepth(sql: string) returns (outcome: Outcome)
    ensures Measures(outcome, Lex(sql))
  {
    var depth, peak, quote: Option<char>, i := 0, 0, None, 0;
    ghost var seen := "";
    ScanStart(sql);
    while i < |sql|
      invariant 0 <= i <= |sql| && Scanned(sql, i, seen, quote)
      invariant depth == Excess(seen) && IsPeak(seen, peak)
      decreases |sql| - i
    {
      var c, rest := sql[i], sql[i..];
      if quote.Some? {
        ScanLiteral(sql, i, seen, quote.value);
        if c == quote.value {
          if i + 1 < |sql| && sql[i + 1] == quote.value {
            i := i + 2;
            continue;
          }
          quote := None;
        }
        i := i + 1;
        continue;
      }
      if StartsLine(rest) {
        var end := Find(sql, "\n", i);
        ScanLine(sql, i, seen, end);
        i := if end == -1 then |sql| else end + 1;
        continue;
      }
      if StartsBlock(rest) {
        var end := Find(sql, "*/", i + 2);
        ScanBlock(sql, i, seen, end);
        if end == -1 {
          return UnterminatedComment;
        }
        i := end + 2;
        continue;
      }
      if IsQuote(c) {
        ScanCode(sql, i, seen);
        quote := Some(c);
      } else {
        CountCode(sql, i, seen, peak);
        if IsOpener(c) || IsCloser(c) {
          seen := seen + [c];
          depth := if IsOpener(c) then depth + 1 else depth - 1;
          peak := Max(peak, depth);
        }
      }
      i := i + 1;
    }
    ScanEnd(sql, seen, quote, peak);
    outcome := if quote.Some? then UnterminatedQuote(quote.value) else Depth(peak);
  }

  // ----- quoted and commented text does not count -----

  /** A complete literal, block comment, or newline-ended line comment, and nothing else. */
  predicate Whole(x: string) {
    && x != "" && (IsQuote(x[0]) || StartsLine(x) || StartsBlock(x))
    && TokenLen(x) == Some(|x|)
    && (StartsLine(x) ==> x[|x| - 1] == '\n')
  }

  /** Lexing a + b from its start comes to b as code, with every line comment before it ended. */
  predicate CodePosition(a: string, b: string)
    decreases |a|
  {
    a == "" ||
    var len := TokenLen(a + b);
    && len.Some? && len.value <= |a|
    && (StartsLine(a + b) ==> a[len.value - 1] == '\n')
    && CodePosition(a[len.value..], b)
  }

  lemma {:induction false} LineAgrees(a: string, b: string, c: string)
    requires LineLen(a + b) <= |a| && a != "" && a[LineLen(a + b) - 1] == '\n'
    ensures LineLen(a + c) == LineLen(a + b)
  {
    assert (a + b)[1..] == a[1..] + b && (a + c)[1..] == a[1..] + c;
    if a[0] != '\n' {
      LineWithin((a + b)[1..]);
      LineAgrees(a[1..], b, c);
    }
  }

  lemma {:induction false} BlockAgrees(a: string, b: string, c: string)
    requires BlockLen(a + b).Some? && BlockLen(a + b).value <= |a|
    ensures BlockLen(a + c) == BlockLen(a + b)
  {
    if a != "" {
      assert (a + b)[1..] == a[1..] + b && (a + c)[1..] == a[1..] + c;
      if !(|a| >= 2 && a[0] == '*' && a[1] == '/') {
        BlockAgrees(a[1..], b, c);
      }
    }
  }

  lemma {:induction false} LiteralAgrees(a: string, b: string, c: string, quote: char)
    requires LiteralLen(a + b, quote).Some? && LiteralLen(a + b, quote).value <= |a|
    requires IsQuote(quote) && c != "" && c[0] == ' '
    ensures LiteralLen(a + c, quote) == LiteralLen(a + b, quote)
    decreases |a|
  {
    if a != "" {
      assert (a + b)[1..] == a[1..] + b && (a + c)[1..] == a[1..] + c;
      if a[0] != quote {
        LiteralAgrees(a[1..], b, c, quote);
      } else if |a| >= 2 && a[1] == quote {
        assert (a + b)[2..] == a[2..] + b && (a + c)[2..] == a[2..] + c;
        LiteralAgrees(a[2..], b, c, quote);
      }
    }
  }

  /** A token inside a does not depend on what follows, once a space does. */
  lemma TokenAgrees(a: string, b: string, c: string)
    requires a != "" && TokenLen(a + b).Some? && TokenLen(a + b).value <= |a| && c != "" && c[0] == ' '
    requires StartsLine(a + b) ==> a[TokenLen(a + b).value - 1] == '\n'
    ensures TokenLen(a + c) == TokenLen(a + b)
  {
    if StartsLine(a + b) {
      LineTwo(a + b);
      LineAgrees(a, b, c);
    } else if StartsBlock(a + b) {
      assert (a + b)[2..] == a[2..] + b && (a + c)[2..] == a[2..] + c;
      BlockAgrees(a[2..], b, c);
    } else if IsQuote(a[0]) {
      assert (a + b)[1..] == a[1..] + b && (a + c)[1..] == a[1..] + c;
      LiteralAgrees(a[1..], b, c, a[0]);
    }
  }

  lemma LineTwo(s: string)
    requires StartsLine(s)
    ensures LineLen(s) >= 2
  {
    LineWithin(s[1..]);
  }

  lemma SpaceLexesAway(s: string)
    ensures Lex(" " + s) == Lex(s)
  {
    assert (" " + s)[1..] == s;
    assert TokenLen(" " + s) == Some(1) && After("", Lex(s)) == Lex(s);
  }

  lemma WholeTokenLexesAway(x: string, rest: string)
    requires Whole(x) && rest != "" && rest[0] == ' '
    ensures Lex(x + rest) == Lex(rest)
  {
    assert x + "" == x;
    TokenAgrees(x, "", rest);
    assert (x + rest)[|x|..] == rest;
    assert Contribution(x + rest) == "" && After("", Lex(rest)) == Lex(rest);
  }

  lemma WholeLexesAway(x: string, b: string)
    requires Whole(x)
    ensures Lex(" " + x + " " + b) == Lex(b)
  {
    assert " " + x + " " + b == " " + (x + (" " + b));
    SpaceLexesAway(x + (" " + b));
    WholeTokenLexesAway(x, " " + b);
    SpaceLexesAway(b);
  }

  /** Inserting a space-padded literal or terminated comment where code stands changes no bracket, no
    * refusal, and so no depth. */
  lemma {:induction false} InsertionIsInvisible(a: string, x: string, b: string)
    requires CodePosition(a, b) && Whole(x)
    ensures Lex(a + (" " + x + " " + b)) == Lex(a + b)
    decreases |a|
  {
    var c := " " + x + " " + b;
    if a == "" {
      assert a + c == c && a + b == b;
      WholeLexesAway(x, b);
    } else {
      TokenAgrees(a, b, c);
      var n := TokenLen(a + b).value;
      assert (a + b)[n..] == a[n..] + b && (a + c)[n..] == a[n..] + c;
      InsertionIsInvisible(a[n..], x, b);
    }
  }

  // ----- the depth of the parsed tree -----

  const MAX_NESTING_DEPTH: nat := 100

  datatype Tree = Node(kids: seq<Tree>)

  /** How far below the root the deepest node lies. */
  function Height(t: Tree): nat { KidsHeight(t.kids) }

  function KidsHeight(kids: seq<Tree>): nat {
    if kids == [] then 0 else Max(1 + Height(kids[0]), KidsHeight(kids[1..]))
  }

  function Size(t: Tree): nat { 1 + KidsSize(t.kids) }

  function KidsSize(kids: seq<Tree>): nat {
    if kids == [] then 0 else Size(kids[0]) + KidsSize(kids[1..])
  }

  function StackSize(stack: seq<(Tree, nat)>): nat {
    if stack == [] then 0 else StackSize(stack[..|stack| - 1]) + Size(stack[|stack| - 1].0)
  }

  /** Some node on the stack has a descendant past the limit. */
  ghost predicate Reaches(stack: seq<(Tree, nat)>) {
    exists k :: 0 <= k < |stack| && stack[k].1 + Height(stack[k].0) > MAX_NESTING_DEPTH
  }

  lemma {:induction false} KidsSplit(kids: seq<Tree>, i: nat)
    requires i < |kids|
    ensures KidsHeight(kids[i..]) == Max(1 + Height(kids[i]), KidsHeight(kids[i + 1..]))
    ensures KidsSize(kids[i..]) == Size(kids[i]) + KidsSize(kids[i + 1..])
  {
    assert kids[i..][1..] == kids[i + 1..];
  }

  /** The explicit-stack check answers true exactly when the tree has a node deeper than the limit. */
  method TooDeeplyNested(tree: Tree) returns (deep: bool)
    ensures deep <==> Height(tree) > 100
  {
    var stack: seq<(Tree, nat)> := [(tree, 0)];
    assert stack[..0] == [];
    while stack != []
      invariant Reaches(stack) <==> Height(tree) > MAX_NESTING_DEPTH
      decreases StackSize(stack)
    {
      var (node, depth) := stack[|stack| - 1];
      ghost var before := stack;
      stack := stack[..|stack| - 1];
      if depth > MAX_NESTING_DEPTH {
        assert Reaches(before) by {
          assert before[|before| - 1].1 + Height(before[|before| - 1].0) > MAX_NESTING_DEPTH;
        }
        return true;
      }
      ReachesTop(before, node, depth);
      assert node.kids[0..] == node.kids;
      for i := 0 to |node.kids|
        invariant Reaches(before) <==> Reaches(stack) || depth + KidsHeight(node.kids[i..]) > MAX_NESTING_DEPTH
        invariant StackSize(stack) + KidsSize(node.kids[i..]) < StackSize(before)
      {
        KidsSplit(node.kids, i);
        var pushed: seq<(Tree, nat)> := stack + [(node.kids[i], depth + 1)];
        assert pushed[..|stack|] == stack;
        ReachesTop(pushed, node.kids[i], depth + 1);
        stack := pushed;
      }
    }
    deep := false;
  }

  lemma ReachesTop(stack: seq<(Tree, nat)>, node: Tree, depth: nat)
    requires stack != [] && stack[|stack| - 1] == (node, depth)
    ensures Reaches(stack) <==> Reaches(stack[..|stack| - 1]) || depth + Height(node) > MAX_NESTING_DEPTH
  {
    var n := |stack| - 1;
    assert forall k :: 0 <= k < n ==> stack[..n][k] == stack[k];
    if depth + Height(node) > MAX_NESTING_DEPTH {
      assert stack[n].1 + Height(stack[n].0) > MAX_NESTING_DEPTH;
    }
  }
}
