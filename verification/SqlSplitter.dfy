/** `splitSqlStatements` and `prepareMigrationStatements` of scripts/migrate.ts. */
module SqlSplitter {
  import opened Common
  import opened SqlLexer
  import opened SqlQuoting
  import Text

  datatype Mode =
    | Normal | LineCommentMode | BlockCommentMode | SingleQuoteMode | DoubleQuoteMode | DollarQuoteMode

  // ----- what the lexer makes of the text from the middle of a lexeme on

  /** The end of `depth` comments that are open at once. */
  function CommentsEnd(s: string, depth: nat): (r: Option<nat>)
    ensures r.Some? ==> r.value <= |s|
    decreases depth
  {
    if depth == 0 then Some(0)
    else
      match CommentEnd(s)
      case None => None
      case Some(n) => Plus(n, CommentsEnd(s[n..], depth - 1))
  }

  function Continue(s: string, end: Option<nat>, what: Unterminated): Lexed
    requires end.Some? ==> end.value <= |s|
  {
    match end
    case None => Open(what)
    case Some(n) => Prefix(s[..n], Lex(s[n..]))
  }

  function Resume(s: string, mode: Mode, depth: nat, tag: string): Lexed {
    match mode
    case Normal => Lex(s)
    case LineCommentMode => Continue(s, Some(LineEnd(s)), BlockComment)
    case BlockCommentMode => Continue(s, CommentsEnd(s, depth), BlockComment)
    case SingleQuoteMode => Continue(s, QuoteEnd(s, '\''), SingleQuoted)
    case DoubleQuoteMode => Continue(s, QuoteEnd(s, '"'), DoubleQuoted)
    case DollarQuoteMode => Continue(s, DollarEnd(s, tag), DollarQuoted(tag))
  }

  lemma PrefixNothing(l: Lexed)
    ensures Prefix("", l) == l
  {
    if l.Pieces? && l.pieces != [] {
      assert "" + l.pieces[0] == l.pieces[0];
    }
  }

  lemma PrefixTwice(a: string, b: string, l: Lexed)
    ensures Prefix(a, Prefix(b, l)) == Prefix(a + b, l)
  {
    if l.Pieces? && l.pieces != [] {
      assert a + (b + l.pieces[0]) == (a + b) + l.pieces[0];
    }
  }

  /** Taking n more characters of a lexeme leaves its meaning. */
  lemma ContinueAfter(s: string, n: nat, end: Option<nat>, what: Unterminated)
    requires n <= |s| && (end.Some? ==> n + end.value <= |s|)
    ensures Continue(s, Plus(n, end), what) == Prefix(s[..n], Continue(s[n..], end, what))
  {
    if end.Some? {
      var e := end.value;
      assert s[..n] + s[n..][..e] == s[..n + e] && s[n..][e..] == s[n + e..];
      PrefixTwice(s[..n], s[n..][..e], Lex(s[n + e..]));
    }
  }

  /** A lexeme's opening delimiter takes the lexer from normal text into a mode. */
  lemma LexOpening(s: string, n: nat, end: Option<nat>, what: Unterminated)
    requires s != "" && s[0] != ';' && n <= |s| && (end.Some? ==> n + end.value <= |s|)
    requires First(s) == Closing(n, end, what)
    ensures Lex(s) == Prefix(s[..n], Continue(s[n..], end, what))
  {
    hide First, Closed, Settled, CommentEnd, QuoteEnd, DollarEnd;
    ContinueAfter(s, n, end, what);
  }

  lemma LexLineComment(s: string)
    requires "--" <= s
    ensures Lex(s) == Prefix(s[..2], Resume(s[2..], LineCommentMode, 0, ""))
  {
    LexOpening(s, 2, Some(LineEnd(s[2..])), BlockComment);
  }

  lemma LexBlockComment(s: string)
    requires "/*" <= s
    ensures Lex(s) == Prefix(s[..2], Resume(s[2..], BlockCommentMode, 1, ""))
  {
    StartsWithPair('/', '*', s);
    StartsWithPair('-', '-', s);
    LexOpening(s, 2, CommentEnd(s[2..]), BlockComment);
    OneComment(s[2..]);
  }

  lemma OneComment(s: string)
    ensures CommentsEnd(s, 1) == CommentEnd(s)
  {
    if CommentEnd(s).Some? {
      assert CommentsEnd(s[CommentEnd(s).value..], 0) == Some(0);
    }
  }

  lemma LexDollarQuote(s: string)
    requires s != "" && s[0] == '$' && DollarTag(s) != 0
    ensures Lex(s) == Prefix(s[..DollarTag(s)], Resume(s[DollarTag(s)..], DollarQuoteMode, 0, s[..DollarTag(s)]))
  {
    var n := DollarTag(s);
    LexOpening(s, n, DollarEnd(s[n..], s[..n]), DollarQuoted(s[..n]));
  }

  lemma LexQuote(s: string)
    requires s != ""
    ensures s[0] == '\'' ==> Lex(s) == Prefix(s[..1], Resume(s[1..], SingleQuoteMode, 0, ""))
    ensures s[0] == '"' ==> Lex(s) == Prefix(s[..1], Resume(s[1..], DoubleQuoteMode, 0, ""))
  {
    if s[0] == '\'' {
      LexOpening(s, 1, QuoteEnd(s[1..], '\''), SingleQuoted);
    } else if s[0] == '"' {
      LexOpening(s, 1, QuoteEnd(s[1..], '"'), DoubleQuoted);
    }
  }

  lemma LexPlain(s: string)
    requires s != "" && s[0] != ';' && First(s) == Whole(1)
    ensures Lex(s) == Prefix(s[..1], Resume(s[1..], Normal, 0, ""))
  {
  }

  /** One comment, then the others around it. */
  lemma CommentsStep(s: string, depth: nat)
    requires depth > 0
    ensures CommentsEnd(s, depth) ==
      match CommentEnd(s)
      case None => None
      case Some(n) => Plus(n, CommentsEnd(s[n..], depth - 1))
  {
  }

  lemma CommentOpens(s: string)
    requires "/*" <= s
    ensures CommentEnd(s) ==
      match CommentEnd(s[2..])
      case None => None
      case Some(n) => Plus(2 + n, CommentEnd(s[2 + n..]))
  {
    assert s[..2] == "/*";
  }

  /** A comment opened inside `depth` comments is one more comment to close. */
  lemma CommentsDeeper(s: string, depth: nat)
    requires depth > 0 && "/*" <= s
    ensures CommentsEnd(s, depth) == Plus(2, CommentsEnd(s[2..], depth + 1))
  {
    hide CommentsEnd, CommentEnd;
    CommentOpens(s);
    CommentsStep(s, depth);
    CommentsStep(s[2..], depth + 1);
    var inner := CommentEnd(s[2..]);
    if inner.Some? {
      var n := inner.value;
      assert s[2..][n..] == s[2 + n..];
      CommentsStep(s[2 + n..], depth);
      var outer := CommentEnd(s[2 + n..]);
      if outer.Some? {
        assert s[2 + n..][outer.value..] == s[2 + n + outer.value..];
      }
    }
  }

  lemma CommentsShallower(s: string, depth: nat)
    requires depth > 0 && "*/" <= s
    ensures CommentsEnd(s, depth) == Plus(2, CommentsEnd(s[2..], depth - 1))
  {
    assert s[..2] == "*/";
  }

  lemma CommentsOnward(s: string, depth: nat)
    requires depth > 0 && s != "" && !("/*" <= s) && !("*/" <= s)
    ensures CommentsEnd(s, depth) == Plus(1, CommentsEnd(s[1..], depth))
  {
    if |s| >= 2 {
      assert s[..2] != "/*" && s[..2] != "*/";
      var end := CommentEnd(s[1..]);
      if end.Some? {
        assert s[1..][end.value..] == s[1 + end.value..];
      }
    } else {
      assert CommentEnd(s[1..]) == None;
    }
  }

  /** One turn inside comments: n characters, and so many comments open afterwards. */
  lemma ResumeInComment(s: string, depth: nat, n: nat, depth': nat)
    requires n <= |s| && CommentsEnd(s, depth) == Plus(n, CommentsEnd(s[n..], depth'))
    ensures Resume(s, BlockCommentMode, depth, "") == Prefix(s[..n], Resume(s[n..], BlockCommentMode, depth', ""))
  {
    ContinueAfter(s, n, CommentsEnd(s[n..], depth'), BlockComment);
  }

  lemma ResumeClosed(s: string, tag: string)
    ensures Resume(s, BlockCommentMode, 0, tag) == Lex(s)
  {
    PrefixNothing(Lex(s));
  }

  lemma ResumeShallower(s: string, depth: nat)
    requires depth > 0 && "*/" <= s
    ensures depth > 1 ==>
      Resume(s, BlockCommentMode, depth, "") == Prefix(s[..2], Resume(s[2..], BlockCommentMode, depth - 1, ""))
    ensures depth == 1 ==>
      Resume(s, BlockCommentMode, depth, "") == Prefix(s[..2], Resume(s[2..], Normal, 0, ""))
  {
    CommentsShallower(s, depth);
    ResumeInComment(s, depth, 2, depth - 1);
    ResumeClosed(s[2..], "");
  }

  lemma ResumeInQuote(s: string, quote: char, what: Unterminated)
    requires s != ""
    ensures s[0] != quote ==>
      Continue(s, QuoteEnd(s, quote), what) == Prefix(s[..1], Continue(s[1..], QuoteEnd(s[1..], quote), what))
    ensures s[0] == quote && 1 < |s| && s[1] == quote ==>
      Continue(s, QuoteEnd(s, quote), what) == Prefix(s[..2], Continue(s[2..], QuoteEnd(s[2..], quote), what))
    ensures s[0] == quote && !(1 < |s| && s[1] == quote) ==>
      Continue(s, QuoteEnd(s, quote), what) == Prefix(s[..1], Lex(s[1..]))
  {
    if s[0] != quote {
      ContinueAfter(s, 1, QuoteEnd(s[1..], quote), what);
    } else if 1 < |s| && s[1] == quote {
      ContinueAfter(s, 2, QuoteEnd(s[2..], quote), what);
    }
  }

  lemma ResumeInDollar(s: string, tag: string)
    requires s != ""
    ensures tag <= s ==> Resume(s, DollarQuoteMode, 0, tag) == Prefix(tag, Lex(s[|tag|..]))
    ensures !(tag <= s) ==>
      Resume(s, DollarQuoteMode, 0, tag) == Prefix(s[..1], Resume(s[1..], DollarQuoteMode, 0, tag))
  {
    if tag <= s {
      assert s[..|tag|] == tag;
    } else {
      ContinueAfter(s, 1, DollarEnd(s[1..], tag), DollarQuoted(tag));
    }
  }

  lemma ResumeInLine(s: string)
    requires s != ""
    ensures s[0] == '\n' ==> Resume(s, LineCommentMode, 0, "") == Prefix(s[..1], Lex(s[1..]))
    ensures s[0] != '\n' ==>
      Resume(s, LineCommentMode, 0, "") == Prefix(s[..1], Resume(s[1..], LineCommentMode, 0, ""))
  {
    if s[0] != '\n' {
      ContinueAfter(s, 1, Some(LineEnd(s[1..])), BlockComment);
    }
  }

  // ----- the splitter

  /** What is still expected: statements so far, the current statement, and the rest. */
  function Expected(statements: seq<string>, statement: string, rest: Lexed): Result<seq<string>, Unterminated> {
    match Prefix(statement, rest)
    case Open(what) => Err(what)
    case Pieces(pieces) => Ok(statements + Statements(pieces))
  }

  lemma ExpectedTaking(statements: seq<string>, statement: string, text: string, rest: Lexed)
    ensures Expected(statements, statement, Prefix(text, rest)) == Expected(statements, statement + text, rest)
  {
    PrefixTwice(statement, text, rest);
  }

  lemma ExpectedCut(statements: seq<string>, statement: string, rest: Lexed)
    requires rest.Pieces? ==> rest.pieces != []
    ensures Expected(statements, statement, Add("", rest))
         == Expected(statements + Statements([statement]), "", rest)
  {
    PrefixNothing(rest);
    if rest.Pieces? {
      assert statement + "" == statement;
      assert ([""] + rest.pieces)[1..] == rest.pieces;
      assert Prefix(statement, Add("", rest)).pieces == [statement] + rest.pieces;
      StatementsConcat([statement], rest.pieces);
      assert statements + (Statements([statement]) + Statements(rest.pieces))
          == (statements + Statements([statement])) + Statements(rest.pieces);
    }
  }

  function Finished(statements: seq<string>, statement: string): (r: seq<string>)
    ensures r == statements + Statements([statement])
  {
    var trimmed := Text.Trim(statement);
    if trimmed != "" then statements + [trimmed] else statements
  }

  ghost predicate InStep(ddl: string, index: nat, statements: seq<string>, statement: string,
                         mode: Mode, depth: nat, tag: string)
  {
    && index <= |ddl|
    && SplitSpec(ddl) == Expected(statements, statement, Resume(ddl[index..], mode, depth, tag))
  }

  /** One turn of the loop takes n characters into the statement. */
  lemma Taken(ddl: string, index: nat, statements: seq<string>, statement: string, n: nat,
              mode: Mode, depth: nat, tag: string, mode': Mode, depth': nat, tag': string)
    requires InStep(ddl, index, statements, statement, mode, depth, tag)
    requires index + n <= |ddl|
    requires Resume(ddl[index..], mode, depth, tag)
          == Prefix(ddl[index..][..n], Resume(ddl[index..][n..], mode', depth', tag'))
    ensures InStep(ddl, index + n, statements, statement + ddl[index..index + n], mode', depth', tag')
  {
    assert ddl[index..][..n] == ddl[index..index + n] && ddl[index..][n..] == ddl[index + n..];
    ExpectedTaking(statements, statement, ddl[index..index + n],
                   Resume(ddl[index + n..], mode', depth', tag'));
  }

  // Each lemma below is one branch of the loop body.

  ghost predicate At(ddl: string, index: nat, a: char, b: char) {
    index + 1 < |ddl| && ddl[index] == a && ddl[index + 1] == b
  }

  lemma AtIsPrefix(ddl: string, index: nat, a: char, b: char)
    requires index < |ddl|
    ensures At(ddl, index, a, b) <==> [a, b] <= ddl[index..]
  {
    StartsWithPair(a, b, ddl[index..]);
  }

  lemma TakenNormal(ddl: string, index: nat, statements: seq<string>, statement: string)
    requires index < |ddl| && InStep(ddl, index, statements, statement, Normal, 0, "")
    ensures At(ddl, index, '-', '-') ==>
      InStep(ddl, index + 2, statements, statement + ddl[index..index + 2], LineCommentMode, 0, "")
    ensures At(ddl, index, '/', '*') ==>
      InStep(ddl, index + 2, statements, statement + ddl[index..index + 2], BlockCommentMode, 1, "")
    ensures ddl[index] == '\'' ==>
      InStep(ddl, index + 1, statements, statement + ddl[index..index + 1], SingleQuoteMode, 0, "")
    ensures ddl[index] == '"' ==>
      InStep(ddl, index + 1, statements, statement + ddl[index..index + 1], DoubleQuoteMode, 0, "")
  {
    var s := ddl[index..];
    AtIsPrefix(ddl, index, '-', '-');
    AtIsPrefix(ddl, index, '/', '*');
    if At(ddl, index, '-', '-') {
      LexLineComment(s);
      Taken(ddl, index, statements, statement, 2, Normal, 0, "", LineCommentMode, 0, "");
    } else if At(ddl, index, '/', '*') {
      LexBlockComment(s);
      Taken(ddl, index, statements, statement, 2, Normal, 0, "", BlockCommentMode, 1, "");
    } else if ddl[index] == '\'' {
      LexQuote(s);
      Taken(ddl, index, statements, statement, 1, Normal, 0, "", SingleQuoteMode, 0, "");
    } else if ddl[index] == '"' {
      LexQuote(s);
      Taken(ddl, index, statements, statement, 1, Normal, 0, "", DoubleQuoteMode, 0, "");
    }
  }

  lemma TakenDollar(ddl: string, index: nat, statements: seq<string>, statement: string)
    requires index < |ddl| && InStep(ddl, index, statements, statement, Normal, 0, "")
    requires ddl[index] == '$' && DollarTag(ddl[index..]) != 0
    ensures var n := DollarTag(ddl[index..]);
      InStep(ddl, index + n, statements, statement + ddl[index..index + n], DollarQuoteMode, 0, ddl[index..index + n])
  {
    var n := DollarTag(ddl[index..]);
    LexDollarQuote(ddl[index..]);
    assert ddl[index..][..n] == ddl[index..index + n];
    Taken(ddl, index, statements, statement, n, Normal, 0, "", DollarQuoteMode, 0, ddl[index..index + n]);
  }

  lemma TakenCut(ddl: string, index: nat, statements: seq<string>, statement: string)
    requires index < |ddl| && InStep(ddl, index, statements, statement, Normal, 0, "")
    requires ddl[index] == ';'
    ensures InStep(ddl, index + 1, Finished(statements, statement), "", Normal, 0, "")
  {
    assert ddl[index..][1..] == ddl[index + 1..];
    ExpectedCut(statements, statement, Lex(ddl[index + 1..]));
  }

  lemma TakenPlain(ddl: string, index: nat, statements: seq<string>, statement: string)
    requires index < |ddl| && InStep(ddl, index, statements, statement, Normal, 0, "")
    requires !At(ddl, index, '-', '-') && !At(ddl, index, '/', '*')
    requires ddl[index] != '\'' && ddl[index] != '"' && ddl[index] != ';'
    requires !(ddl[index] == '$' && DollarTag(ddl[index..]) != 0)
    ensures InStep(ddl, index + 1, statements, statement + ddl[index..index + 1], Normal, 0, "")
  {
    AtIsPrefix(ddl, index, '-', '-');
    AtIsPrefix(ddl, index, '/', '*');
    LexPlain(ddl[index..]);
    Taken(ddl, index, statements, statement, 1, Normal, 0, "", Normal, 0, "");
  }

  lemma TakenLine(ddl: string, index: nat, statements: seq<string>, statement: string)
    requires index < |ddl| && InStep(ddl, index, statements, statement, LineCommentMode, 0, "")
    ensures InStep(ddl, index + 1, statements, statement + ddl[index..index + 1],
                   if ddl[index] == '\n' then Normal else LineCommentMode, 0, "")
  {
    ResumeInLine(ddl[index..]);
    Taken(ddl, index, statements, statement, 1, LineCommentMode, 0, "",
          if ddl[index] == '\n' then Normal else LineCommentMode, 0, "");
  }

  lemma TakenDeeper(ddl: string, index: nat, statements: seq<string>, statement: string, depth: nat)
    requires At(ddl, index, '/', '*') && depth > 0
    requires InStep(ddl, index, statements, statement, BlockCommentMode, depth, "")
    ensures InStep(ddl, index + 2, statements, statement + ddl[index..index + 2], BlockCommentMode, depth + 1, "")
  {
    AtIsPrefix(ddl, index, '/', '*');
    CommentsDeeper(ddl[index..], depth);
    ResumeInComment(ddl[index..], depth, 2, depth + 1);
    Taken(ddl, index, statements, statement, 2, BlockCommentMode, depth, "", BlockCommentMode, depth + 1, "");
  }

  lemma TakenShallower(ddl: string, index: nat, statements: seq<string>, statement: string, depth: nat)
    requires At(ddl, index, '*', '/') && depth > 0
    requires InStep(ddl, index, statements, statement, BlockCommentMode, depth, "")
    ensures InStep(ddl, index + 2, statements, statement + ddl[index..index + 2],
                   if depth == 1 then Normal else BlockCommentMode, depth - 1, "")
  {
    hide InStep, Lex, Resume, Continue, Prefix;
    AtIsPrefix(ddl, index, '*', '/');
    ResumeShallower(ddl[index..], depth);
    if depth == 1 {
      Taken(ddl, index, statements, statement, 2, BlockCommentMode, depth, "", Normal, 0, "");
    } else {
      Taken(ddl, index, statements, statement, 2, BlockCommentMode, depth, "", BlockCommentMode, depth - 1, "");
    }
  }

  lemma TakenInComment(ddl: string, index: nat, statements: seq<string>, statement: string, depth: nat)
    requires index < |ddl| && !At(ddl, index, '/', '*') && !At(ddl, index, '*', '/') && depth > 0
    requires InStep(ddl, index, statements, statement, BlockCommentMode, depth, "")
    ensures InStep(ddl, index + 1, statements, statement + ddl[index..index + 1], BlockCommentMode, depth, "")
  {
    AtIsPrefix(ddl, index, '/', '*');
    AtIsPrefix(ddl, index, '*', '/');
    CommentsOnward(ddl[index..], depth);
    ResumeInComment(ddl[index..], depth, 1, depth);
    Taken(ddl, index, statements, statement, 1, BlockCommentMode, depth, "", BlockCommentMode, depth, "");
  }

  lemma TakenBody(ddl: string, index: nat, statements: seq<string>, statement: string, tag: string)
    requires index < |ddl| && InStep(ddl, index, statements, statement, DollarQuoteMode, 0, tag)
    ensures tag <= ddl[index..] ==>
      InStep(ddl, index + |tag|, statements, statement + ddl[index..index + |tag|], Normal, 0, "")
    ensures !(tag <= ddl[index..]) ==>
      InStep(ddl, index + 1, statements, statement + ddl[index..index + 1], DollarQuoteMode, 0, tag)
  {
    hide Lex, DollarEnd, First;
    ResumeInDollar(ddl[index..], tag);
    if tag <= ddl[index..] {
      assert ddl[index..][..|tag|] == tag;
      Taken(ddl, index, statements, statement, |tag|, DollarQuoteMode, 0, tag, Normal, 0, "");
    } else {
      Taken(ddl, index, statements, statement, 1, DollarQuoteMode, 0, tag, DollarQuoteMode, 0, tag);
    }
  }

  lemma TakenQuoted(ddl: string, index: nat, statements: seq<string>, statement: string, mode: Mode)
    requires mode == SingleQuoteMode || mode == DoubleQuoteMode
    requires index < |ddl| && InStep(ddl, index, statements, statement, mode, 0, "")
    ensures var quote := if mode == SingleQuoteMode then '\'' else '"';
      if At(ddl, index, quote, quote) then
        InStep(ddl, index + 2, statements, statement + ddl[index..index + 2], mode, 0, "")
      else
        InStep(ddl, index + 1, statements, statement + ddl[index..index + 1],
               if ddl[index] == quote then Normal else mode, 0, "")
  {
    hide InStep, Lex, QuoteEnd, First;
    var quote := if mode == SingleQuoteMode then '\'' else '"';
    ResumeInQuote(ddl[index..], quote, if mode == SingleQuoteMode then SingleQuoted else DoubleQuoted);
    if At(ddl, index, quote, quote) {
      Taken(ddl, index, statements, statement, 2, mode, 0, "", mode, 0, "");
    } else {
      Taken(ddl, index, statements, statement, 1, mode, 0, "", if ddl[index] == quote then Normal else mode, 0, "");
    }
  }

  lemma TakenNothing(ddl: string)
    ensures InStep(ddl, 0, [], "", Normal, 0, "")
  {
    PrefixNothing(Lex(ddl));
    assert ddl[0..] == ddl;
    if Lex(ddl).Pieces? {
      assert [] + Statements(Lex(ddl).pieces) == Statements(Lex(ddl).pieces);
    }
  }

  lemma TakenAll(ddl: string, statements: seq<string>, statement: string, mode: Mode, depth: nat, tag: string)
    requires InStep(ddl, |ddl|, statements, statement, mode, depth, tag)
    requires tag != "" || mode != DollarQuoteMode
    requires depth > 0 || mode != BlockCommentMode
    ensures SplitSpec(ddl) ==
      match mode
      case SingleQuoteMode => Err(SingleQuoted)
      case DoubleQuoteMode => Err(DoubleQuoted)
      case BlockCommentMode => Err(BlockComment)
      case DollarQuoteMode => Err(DollarQuoted(tag))
      case _ => Ok(Finished(statements, statement))
  {
    assert ddl[|ddl|..] == "";
    match mode
    case Normal | LineCommentMode =>
      PrefixNothing(Lex(""));
      assert statement + "" == statement;
      assert Prefix(statement, Resume("", mode, depth, tag)).pieces == [statement];
    case BlockCommentMode => assert CommentsEnd("", depth) == None;
    case SingleQuoteMode => assert QuoteEnd("", '\'') == None;
    case DoubleQuoteMode => assert QuoteEnd("", '"') == None;
    case DollarQuoteMode => assert DollarEnd("", tag) == None;
  }

  /** `dollarDelimiterAt`: the delimiter that starts at this dollar sign, if one does. */
  method DollarDelimiterAt(sql: string, offset: nat) returns (delimiter: Option<string>)
    requires offset < |sql| && sql[offset] == '$'
    ensures delimiter.Some? ==> IsDelimiter(delimiter.value) && delimiter.value <= sql[offset..]
    ensures delimiter.None? ==> forall d :: IsDelimiter(d) ==> !(d <= sql[offset..])
    ensures delimiter.Some? ==>
      DollarTag(sql[offset..]) == |delimiter.value| && delimiter.value == sql[offset..offset + |delimiter.value|]
    ensures delimiter.None? ==> DollarTag(sql[offset..]) == 0
  {
    hide DollarTag;
    var end := offset + 1;
    if end < |sql| && TagHead(sql[end]) {
      end := end + 1;
      while end < |sql| && TagPart(sql[end])
        invariant offset + 1 < end <= |sql| && TagHead(sql[offset + 1])
        invariant forall i :: offset < i < end ==> TagPart(sql[i])
      {
        end := end + 1;
      }
    }
    if end < |sql| && sql[end] == '$' {
      var found := sql[offset..end + 1];
      FoundDelimiter(sql, offset, end);
      DelimiterOpens(found, sql[offset..]);
      delimiter := Some(found);
    } else {
      NoDelimiter(sql, offset, end);
      if DollarTag(sql[offset..]) != 0 {
        OpensDelimiter(sql[offset..]);
      }
      delimiter := None;
    }
  }

  lemma FoundDelimiter(sql: string, offset: nat, end: nat)
    requires offset < end < |sql| && sql[offset] == '$' && sql[end] == '$'
    requires end > offset + 1 ==> TagHead(sql[offset + 1]) && forall i :: offset < i < end ==> TagPart(sql[i])
    ensures IsDelimiter(sql[offset..end + 1]) && sql[offset..end + 1] <= sql[offset..]
  {
    var d := sql[offset..end + 1];
    var t := d[1..|d| - 1];
    forall i | 0 <= i < |t| ensures t[i] == sql[offset + 1 + i] {
      assert t[i] == d[i + 1];
    }
  }

  /** Where the tag's characters stop at no dollar sign, no delimiter starts. */
  lemma NoDelimiter(sql: string, offset: nat, end: nat)
    requires offset < end <= |sql| && (end < |sql| ==> sql[end] != '$')
    requires forall i :: offset < i < end ==> TagPart(sql[i])
    requires end < |sql| ==> if end == offset + 1 then !TagHead(sql[end]) else !TagPart(sql[end])
    ensures forall d :: IsDelimiter(d) ==> !(d <= sql[offset..])
  {
    forall d | IsDelimiter(d) ensures !(d <= sql[offset..]) {
      var s := sql[offset..];
      if |d| <= |s| {
        var k := if |d| - 1 < end - offset then |d| - 1 else end - offset;
        var t := d[1..|d| - 1];
        assert k < |d| - 1 ==> d[k] == t[k - 1];
        assert s[k] == sql[offset + k] && s[k] != d[k];
      }
    }
  }

  method SplitSqlStatements(ddl: string) returns (r: Result<seq<string>, Unterminated>)
    ensures r == SplitSpec(ddl)
  {
    hide InStep, SplitSpec, DollarTag;
    var statements: seq<string> := [];
    var statement := "";
    var mode := Normal;
    var blockCommentDepth: nat := 0;
    var dollarDelimiter := "";
    var index := 0;
    TakenNothing(ddl);

    while index < |ddl|
      invariant InStep(ddl, index, statements, statement, mode, blockCommentDepth, dollarDelimiter)
      invariant index <= |ddl|
      invariant mode == BlockCommentMode <==> blockCommentDepth != 0
      invariant mode == DollarQuoteMode <==> dollarDelimiter != ""
      decreases |ddl| - index
    {
      var character := ddl[index];
      var hasNext := index + 1 < |ddl|;
      var n := 1;

      if mode == Normal {
        TakenNormal(ddl, index, statements, statement);
        if character == '-' && hasNext && ddl[index + 1] == '-' {
          n := 2;
          mode := LineCommentMode;
        } else if character == '/' && hasNext && ddl[index + 1] == '*' {
          n := 2;
          blockCommentDepth := 1;
          mode := BlockCommentMode;
        } else if character == '\'' {
          mode := SingleQuoteMode;
        } else if character == '"' {
          mode := DoubleQuoteMode;
        } else if character == '$' {
          var delimiter := DollarDelimiterAt(ddl, index);
          if delimiter.Some? {
            TakenDollar(ddl, index, statements, statement);
            n := |delimiter.value|;
            dollarDelimiter := delimiter.value;
            mode := DollarQuoteMode;
          } else {
            TakenPlain(ddl, index, statements, statement);
          }
        } else if character == ';' {
          TakenCut(ddl, index, statements, statement);
          statements := Finished(statements, statement);
          statement := "";
          index := index + 1;
          continue;
        } else {
          TakenPlain(ddl, index, statements, statement);
        }
      } else if mode == LineCommentMode {
        TakenLine(ddl, index, statements, statement);
        if character == '\n' {
          mode := Normal;
        }
      } else if mode == BlockCommentMode {
        if character == '/' && hasNext && ddl[index + 1] == '*' {
          TakenDeeper(ddl, index, statements, statement, blockCommentDepth);
          n := 2;
          blockCommentDepth := blockCommentDepth + 1;
        } else if character == '*' && hasNext && ddl[index + 1] == '/' {
          TakenShallower(ddl, index, statements, statement, blockCommentDepth);
          n := 2;
          blockCommentDepth := blockCommentDepth - 1;
          if blockCommentDepth == 0 {
            mode := Normal;
          }
        } else {
          TakenInComment(ddl, index, statements, statement, blockCommentDepth);
        }
      } else if mode == DollarQuoteMode {
        TakenBody(ddl, index, statements, statement, dollarDelimiter);
        if dollarDelimiter <= ddl[index..] {
          n := |dollarDelimiter|;
          dollarDelimiter := "";
          mode := Normal;
        }
      } else {
        TakenQuoted(ddl, index, statements, statement, mode);
        var quote := if mode == SingleQuoteMode then '\'' else '"';
        if character == quote {
          if hasNext && ddl[index + 1] == quote {
            n := 2;
          } else {
            mode := Normal;
          }
        }
      }
      statement := statement + ddl[index..index + n];
      index := index + n;
    }

    TakenAll(ddl, statements, statement, mode, blockCommentDepth, dollarDelimiter);
    match mode
    case SingleQuoteMode => return Err(SingleQuoted);
    case DoubleQuoteMode => return Err(DoubleQuoted);
    case BlockCommentMode => return Err(BlockComment);
    case DollarQuoteMode => return Err(DollarQuoted(dollarDelimiter));
    case _ => return Ok(Finished(statements, statement));
  }
}
