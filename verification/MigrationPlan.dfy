/** `prepareMigrationStatements` of scripts/migrate.ts, and what a transaction wrapper does to it. */
module MigrationPlan {
  import opened Common
  import opened SqlLexer
  import Text

  datatype PrepareError =
    | UnterminatedText(what: Unterminated)
    | NoStatements
    | IncompleteBoundary
    | UnexpectedBoundary
    | ConcurrentIndex

  const LOCK_LIMIT := "SET LOCAL lock_timeout = '5s'"
  const STATEMENT_LIMIT := "SET LOCAL statement_timeout = '120s'"

  /** `^word(?:\s+(?:WORK|TRANSACTION))?$` in any letter case */
  predicate IsBoundary(statement: string, word: string) {
    || Text.IsWords(statement, [word])
    || Text.IsWords(statement, [word, "WORK"])
    || Text.IsWords(statement, [word, "TRANSACTION"])
  }

  predicate IsTransactionWord(statement: string) {
    IsBoundary(statement, "BEGIN") || IsBoundary(statement, "COMMIT") || IsBoundary(statement, "ROLLBACK")
  }

  predicate BuildsConcurrently(statement: string) {
    || Text.ContainsWords(statement, ["CREATE", "INDEX", "CONCURRENTLY"])
    || Text.ContainsWords(statement, ["CREATE", "UNIQUE", "INDEX", "CONCURRENTLY"])
  }

  function Runnable(runnable: seq<string>): Result<seq<string>, PrepareError> {
    if runnable == [] then Err(NoStatements)
    else if exists i | 0 <= i < |runnable| :: IsTransactionWord(runnable[i]) then Err(UnexpectedBoundary)
    else if exists i | 0 <= i < |runnable| :: BuildsConcurrently(runnable[i]) then Err(ConcurrentIndex)
    else Ok([LOCK_LIMIT, STATEMENT_LIMIT] + runnable)
  }

  function PrepareStatements(statements: seq<string>): Result<seq<string>, PrepareError> {
    if statements == [] then Err(NoStatements)
    else
      var begins := IsBoundary(statements[0], "BEGIN");
      var commits := IsBoundary(statements[|statements| - 1], "COMMIT");
      if begins != commits then Err(IncompleteBoundary)
      else if !begins then Runnable(statements)
      else if |statements| == 1 then Runnable([])
      else Runnable(statements[1..|statements| - 1])
  }

  function PrepareMigrationStatements(ddl: string): Result<seq<string>, PrepareError> {
    match SplitSpec(ddl)
    case Err(what) => Err(UnterminatedText(what))
    case Ok(statements) => PrepareStatements(statements)
  }

  /** A script inside its own transaction. */
  function Wrapped(ddl: string): string {
    "BEGIN;\n" + ddl + "\n;" + COMMIT_TAIL
  }

  const COMMIT_TAIL := "\nCOMMIT;"

  // ----- text after a broken lexeme that cannot close it

  lemma {:induction false} NoCommentEnd(t: string)
    requires '/' !in t
    ensures CommentEnd(t).None?
  {
    if |t| >= 2 {
      assert t[..2][1] == t[1] && t[..2][0] == t[0];
      NoCommentEnd(t[1..]);
    }
  }

  lemma ShortCommentStaysOpen(z: string, t: string)
    requires |z| < 2 && '/' !in t && '*' !in t
    ensures CommentEnd(z + t).None?
  {
    NoCommentEnd(t);
    if |z| == 1 && t != "" {
      assert (z + t)[..2] == [z[0], t[0]] && (z + t)[1..] == t;
    } else if z == "" {
      assert z + t == t;
    }
  }

  lemma {:induction false} CommentStaysOpen(z: string, t: string)
    requires CommentEnd(z).None? && '/' !in t && '*' !in t
    ensures CommentEnd(z + t).None?
    decreases |z|
  {
    if |z| < 2 {
      ShortCommentStaysOpen(z, t);
    } else {
      Drop(z, t, 2);
      if z[..2] == "/*" {
        if CommentEnd(z[2..]).None? {
          CommentStaysOpen(z[2..], t);
        } else {
          var n := 2 + CommentEnd(z[2..]).value;
          CommentEndLocal(z[2..], t);
          Drop(z, t, n);
          CommentStaysOpen(z[n..], t);
        }
      } else {
        Drop(z, t, 1);
        CommentStaysOpen(z[1..], t);
      }
    }
  }

  lemma {:induction false} QuoteStaysOpen(z: string, t: string, quote: char)
    requires QuoteEnd(z, quote).None? && quote !in t
    ensures QuoteEnd(z + t, quote).None?
    decreases |z| + |t|
  {
    if z == "" {
      assert z + t == t;
      if t != "" {
        assert "" + t[1..] == t[1..];
        QuoteStaysOpen("", t[1..], quote);
      }
    } else if z[0] != quote {
      Drop(z, t, 1);
      QuoteStaysOpen(z[1..], t, quote);
    } else {
      Drop(z, t, 2);
      QuoteStaysOpen(z[2..], t, quote);
    }
  }

  lemma TagNotHere(z: string, t: string, tag: string)
    requires !(tag <= z) && '$' !in t && tag != "" && tag[|tag| - 1] == '$'
    ensures !(tag <= z + t)
  {
    if |tag| <= |z| {
      assert z[..|tag|] == (z + t)[..|tag|];
    } else if |tag| <= |z + t| {
      assert (z + t)[|tag| - 1] == t[|tag| - 1 - |z|];
    }
  }

  lemma {:induction false} DollarStaysOpen(z: string, t: string, tag: string)
    requires DollarEnd(z, tag).None? && '$' !in t
    requires tag != "" && tag[|tag| - 1] == '$'
    ensures DollarEnd(z + t, tag).None?
    decreases |z| + |t|
  {
    TagNotHere(z, t, tag);
    if z == "" {
      assert z + t == t;
      if t != "" {
        assert "" + t[1..] == t[1..];
        DollarStaysOpen("", t[1..], tag);
      }
    } else {
      Drop(z, t, 1);
      DollarStaysOpen(z[1..], t, tag);
    }
  }

  predicate ClosesNothing(t: string) {
    forall c :: c in t ==> c !in "-*/'\"$"
  }

  lemma FirstStaysBroken(z: string, t: string)
    requires z != "" && First(z).Broken? && t != "" && Neutral(t[0]) && ClosesNothing(t)
    ensures First(z + t) == First(z)
  {
    OpeningLocal(z, t);
    DollarTagLocal(z, t);
    if "/*" <= z {
      Drop(z, t, 2);
      CommentStaysOpen(z[2..], t);
    } else if z[0] == '\'' || z[0] == '"' {
      Drop(z, t, 1);
      QuoteStaysOpen(z[1..], t, z[0]);
    } else {
      var n := DollarTag(z);
      Drop(z, t, n);
      DollarStaysOpen(z[n..], t, z[..n]);
    }
  }

  // ----- a newline, a semicolon and more text after a script

  function Closer(pieces: seq<string>): seq<string>
    requires pieces != []
  {
    pieces[..|pieces| - 1] + [pieces[|pieces| - 1] + "\n"]
  }

  function WithTail(l: Lexed, tail: Lexed): Lexed {
    if l.Pieces? && l.pieces != [] && tail.Pieces? then Pieces(Closer(l.pieces) + tail.pieces) else l
  }

  lemma WithTailOfPrefix(text: string, l: Lexed, tail: Lexed)
    requires l.Pieces? ==> l.pieces != []
    requires tail.Pieces?
    ensures WithTail(Prefix(text, l), tail) == Prefix(text, WithTail(l, tail))
  {
    if l.Pieces? {
      var a := WithTail(Prefix(text, l), tail).pieces;
      var b := Prefix(text, WithTail(l, tail)).pieces;
      if |l.pieces| == 1 {
        assert text + (l.pieces[0] + "\n") == (text + l.pieces[0]) + "\n";
      }
      assert a == b;
    }
  }

  lemma WithTailOfAdd(l: Lexed, tail: Lexed)
    requires l.Pieces? ==> l.pieces != []
    requires tail.Pieces?
    ensures WithTail(Add("", l), tail) == Add("", WithTail(l, tail))
  {
    if l.Pieces? {
      assert WithTail(Add("", l), tail).pieces == Add("", WithTail(l, tail)).pieces;
    }
  }

  lemma OpenLineExtends(s: string, r: string)
    requires OpenLine(s)
    ensures First(s + "\n" + r) == Whole(|s| + 1)
  {
    var z := s + "\n" + r;
    StartsWithPair('-', '-', s);
    StartsWithPair('-', '-', z);
    LineEndExtends(s[2..], r);
    assert z[2..] == s[2..] + "\n" + r;
  }

  lemma OpenLineCloses(s: string, y: string)
    requires OpenLine(s)
    ensures Lex(s + ("\n;" + y)) == Prefix(s + "\n", Add("", Lex(y)))
  {
    var z := s + "\n" + (";" + y);
    assert s + ("\n;" + y) == z;
    OpenLineExtends(s, ";" + y);
    assert z[..|s| + 1] == s + "\n" && z[|s| + 1..] == ";" + y;
    LexSemicolon(y);
    StartsWithPair('-', '-', s);
    assert z[0] == '-';
  }

  lemma LexSemicolon(y: string)
    ensures Lex(";" + y) == Add("", Lex(y))
  {
    assert (";" + y)[1..] == y;
  }

  lemma {:induction false} LineEndExtends(z: string, rest: string)
    requires LineEnd(z) == |z| && (z == "" || z[|z| - 1] != '\n')
    ensures LineEnd(z + "\n" + rest) == |z| + 1
  {
    if z != "" {
      assert (z + "\n" + rest)[1..] == z[1..] + "\n" + rest;
      LineEndExtends(z[1..], rest);
    }
  }

  lemma WithTailOfNothing(tail: Lexed)
    requires tail.Pieces?
    ensures WithTail(Pieces([""]), tail) == Prefix("\n", Add("", tail))
  {
    var none := [""];
    assert none[..0] == [] && none[0] == "";
    assert "" + "\n" == "\n" + "";
    assert Closer(none) == ["\n" + ""];
    assert ([""] + tail.pieces)[1..] == tail.pieces;
  }

  lemma {:induction false} LexWithTail(s: string, y: string)
    requires Lex(y).Pieces? && ClosesNothing(y)
    ensures Lex(s + ("\n;" + y)) == WithTail(Lex(s), Lex(y))
    decreases |s|
  {
    var t := "\n;" + y;
    if s == "" {
      assert s + t == t && "\n" + (";" + y) == t;
      LexNewline(";" + y);
      LexSemicolon(y);
      WithTailOfNothing(Lex(y));
    } else if s[0] == ';' {
      Drop(s, t, 1);
      LexWithTail(s[1..], y);
      WithTailOfAdd(Lex(s[1..]), Lex(y));
    } else if First(s).Broken? {
      FirstStaysBroken(s, t);
    } else if OpenLine(s) {
      OpenLineCloses(s, y);
      assert s[|s|..] == "" && s[..|s|] == s && s + "" == s;
      assert Lex(s) == Pieces([s]);
      assert Closer([s]) == [s + "\n"];
      assert (s + "\n") + "" == s + "\n";
      assert Prefix(s + "\n", Add("", Lex(y))).pieces == [s + "\n"] + Lex(y).pieces;
    } else {
      FirstLocal(s, t);
      var n := First(s).length;
      Drop(s, t, n);
      LexWithTail(s[n..], y);
      WithTailOfPrefix(s[..n], Lex(s[n..]), Lex(y));
    }
  }

  lemma {:induction false} StatementsOfSameTrims(a: seq<string>, b: seq<string>)
    requires |a| == |b| && forall i :: 0 <= i < |a| ==> Text.Trim(a[i]) == Text.Trim(b[i])
    ensures Statements(a) == Statements(b)
    decreases |a|
  {
    if a != [] {
      StatementsOfSameTrims(a[1..], b[1..]);
    }
  }

  lemma LexLastCut(p: string, empty: string)
    requires Closed(p) && empty == ""
    ensures Lex(p + ";" + empty) == Pieces([p, empty])
  {
    LexCut(p, empty);
    assert [p] + [empty] == [p, empty];
  }

  lemma StatementThenNothing(padded: string, t: string, empty: string)
    requires t != "" && Text.Trim(padded) == t && empty == ""
    ensures Statements([padded, empty]) == [t] && Statements([padded]) == [t]
  {
    assert Text.Trim(empty) == "";
    assert [padded][1..] == [] && [empty][1..] == [] && [padded, empty][1..] == [empty];
    assert Statements([empty]) == [] && Statements([padded]) == [t] + [];
  }

  lemma WrapperStatements()
    ensures Statements(["\nCOMMIT", ""]) == ["COMMIT"]
    ensures Statements(["BEGIN"]) == ["BEGIN"]
  {
    hide Statements, Text.Trim, Text.TrimLeft, Text.TrimRight;
    Text.TrimmedIsFixed("COMMIT");
    Text.TrimmedIsFixed("BEGIN");
    Text.TrimAfterSpace("COMMIT", '\n');
    assert ['\n'] + "COMMIT" == "\nCOMMIT";
    StatementThenNothing("\nCOMMIT", "COMMIT", "");
    StatementThenNothing("BEGIN", "BEGIN", "");
  }

  lemma {:induction false} PlainClosed(s: string)
    requires forall c :: c in s ==> c !in "-*/'\"$;"
    ensures Closed(s)
    decreases |s|
  {
    if s != "" {
      assert s[0] in s;
      StartsWithPair('-', '-', s);
      StartsWithPair('/', '*', s);
      assert First(s) == Whole(1);
      PlainClosed(s[1..]);
    }
  }

  /** The wrapped script's statements are BEGIN, the script's own, and COMMIT. */
  lemma SplitWrapped(ddl: string)
    ensures SplitSpec(Wrapped(ddl)) ==
      match SplitSpec(ddl)
      case Err(what) => Err(what)
      case Ok(statements) => Ok(["BEGIN"] + statements + ["COMMIT"])
  {
    hide Closed, Settled, First, Lex;
    PlainClosed("BEGIN");
    PlainClosed("\nCOMMIT");
    assert COMMIT_TAIL == "\nCOMMIT" + ";" + "";
    assert Wrapped(ddl) == "BEGIN" + ";" + ("\n" + (ddl + ("\n;" + COMMIT_TAIL)));
    LexBetween(ddl, Wrapped(ddl), "BEGIN", "\nCOMMIT", COMMIT_TAIL, "");
    if Lex(ddl).Pieces? {
      WrappedStatements(Lex(ddl).pieces);
    }
  }

  lemma LexBetween(ddl: string, whole: string, head: string, last: string, tail: string, empty: string)
    requires Closed(head) && Closed(last) && empty == "" && tail == last + ";" + empty && ClosesNothing(tail)
    requires whole == head + ";" + ("\n" + (ddl + ("\n;" + tail)))
    ensures Lex(whole) ==
      match Lex(ddl)
      case Open(what) => Open(what)
      case Pieces(pieces) =>
        Add(head, Prefix("\n", Pieces(Closer(pieces) + [last, empty])))
  {
    LexLastCut(last, empty);
    LexWithTail(ddl, tail);
    LexNewline(ddl + ("\n;" + tail));
    LexCut(head, "\n" + (ddl + ("\n;" + tail)));
  }

  lemma WrappedStatements(pieces: seq<string>)
    requires pieces != []
    ensures var own := ["\n" + Closer(pieces)[0]] + Closer(pieces)[1..];
      && ["\n" + (Closer(pieces) + ["\nCOMMIT", ""])[0]] + (Closer(pieces) + ["\nCOMMIT", ""])[1..]
         == own + ["\nCOMMIT", ""]
      && Statements(["BEGIN"] + (own + ["\nCOMMIT", ""])) == ["BEGIN"] + Statements(pieces) + ["COMMIT"]
  {
    hide Statements, Text.Trim, Text.TrimLeft, Text.TrimRight;
    var own := ["\n" + Closer(pieces)[0]] + Closer(pieces)[1..];
    forall i | 0 <= i < |own| ensures Text.Trim(own[i]) == Text.Trim(pieces[i]) {
      Text.TrimBeforeSpace(pieces[i], '\n');
      Text.TrimAfterSpace(Closer(pieces)[i], '\n');
    }
    StatementsOfSameTrims(own, pieces);
    StatementsConcat(own, ["\nCOMMIT", ""]);
    StatementsConcat(["BEGIN"], own + ["\nCOMMIT", ""]);
    WrapperStatements();
    assert ["BEGIN"] + (Statements(pieces) + ["COMMIT"]) == ["BEGIN"] + Statements(pieces) + ["COMMIT"];
  }

  lemma LexNewline(s: string)
    ensures Lex("\n" + s) == Prefix("\n", Lex(s))
  {
    var z := "\n" + s;
    StartsWithPair('-', '-', z);
    StartsWithPair('/', '*', z);
    assert z[1..] == s && z[..1] == "\n";
  }

  lemma WrapperWords()
    ensures IsBoundary("BEGIN", "BEGIN") && IsBoundary("COMMIT", "COMMIT")
  {
    assert Text.WordAt("BEGIN", 0, "BEGIN") && Text.WordAt("COMMIT", 0, "COMMIT");
  }

  /** What a script must not bring along to be unchanged by a wrapper. */
  ghost predicate BringsBoundary(statements: seq<string>) {
    exists i | 0 <= i < |statements| :: IsTransactionWord(statements[i])
  }

  /** A script free of transaction words is prepared the same with and without BEGIN and COMMIT. */
  lemma WrapperChangesNothing(ddl: string)
    requires SplitSpec(ddl).Ok? ==> !BringsBoundary(SplitSpec(ddl).value)
    ensures PrepareMigrationStatements(Wrapped(ddl)) == PrepareMigrationStatements(ddl)
  {
    SplitWrapped(ddl);
    WrapperWords();
    if SplitSpec(ddl).Ok? {
      var statements := SplitSpec(ddl).value;
      var all := ["BEGIN"] + statements + ["COMMIT"];
      assert all[1..|all| - 1] == statements;
      if statements != [] {
        assert !IsTransactionWord(statements[0]) && !IsTransactionWord(statements[|statements| - 1]);
      }
    }
  }

  /** And one that brings a transaction word is refused once it is wrapped. */
  lemma WrapperRefusesBoundaries(ddl: string)
    requires SplitSpec(ddl).Ok? && BringsBoundary(SplitSpec(ddl).value)
    ensures PrepareMigrationStatements(Wrapped(ddl)) == Err(UnexpectedBoundary)
  {
    SplitWrapped(ddl);
    WrapperWords();
    var statements := SplitSpec(ddl).value;
    var all := ["BEGIN"] + statements + ["COMMIT"];
    assert all[1..|all| - 1] == statements;
  }

  /**
   What a wrapper leaves as it is: a script that cannot be split, one without transaction words,
   and one that is refused without the wrapper too, for a transaction word of its own.
   */
  ghost predicate WrapperKeeps(ddl: string) {
    match SplitSpec(ddl)
    case Err(_) => true
    case Ok(statements) =>
      !BringsBoundary(statements)
      || (var n := |statements|;
          var begins := IsBoundary(statements[0], "BEGIN");
          begins == IsBoundary(statements[n - 1], "COMMIT")
          && (begins ==> 2 <= n && BringsBoundary(statements[1..n - 1])))
  }

  /** Exactly which scripts a BEGIN and a COMMIT around them leave unchanged. */
  lemma WrapperExact(ddl: string)
    ensures PrepareMigrationStatements(Wrapped(ddl)) == PrepareMigrationStatements(ddl) <==> WrapperKeeps(ddl)
  {
    if SplitSpec(ddl).Ok? && BringsBoundary(SplitSpec(ddl).value) {
      WrapperRefusesBoundaries(ddl);
      RefusedForBoundary(SplitSpec(ddl).value);
    } else {
      WrapperChangesNothing(ddl);
    }
  }

  lemma RefusedForBoundary(statements: seq<string>)
    requires BringsBoundary(statements)
    ensures var n := |statements|;
      var begins := IsBoundary(statements[0], "BEGIN");
      PrepareStatements(statements) == Err(UnexpectedBoundary)
      <==> (begins == IsBoundary(statements[n - 1], "COMMIT")
            && (begins ==> 2 <= n && BringsBoundary(statements[1..n - 1])))
  {
    hide IsTransactionWord, BuildsConcurrently, IsBoundary;
  }

  /** A script that is accepted inside its own transaction is refused inside two. */
  lemma WrappedTwice(ddl: string)
    requires SplitSpec(ddl).Ok? && !BringsBoundary(SplitSpec(ddl).value)
    ensures PrepareMigrationStatements(Wrapped(ddl)) == PrepareMigrationStatements(ddl)
    ensures PrepareMigrationStatements(Wrapped(Wrapped(ddl))) == Err(UnexpectedBoundary)
  {
    WrapperChangesNothing(ddl);
    SplitWrapped(ddl);
    WrapperWords();
    assert IsTransactionWord(SplitSpec(Wrapped(ddl)).value[0]);
    hide IsTransactionWord, SplitSpec, IsBoundary;
    WrapperRefusesBoundaries(Wrapped(ddl));
  }

  /** One such script: a wrapped query runs, and is refused when it is wrapped once more. */
  lemma WrappedQuery()
    ensures PrepareMigrationStatements(Wrapped("SELECT 1")) == Ok([LOCK_LIMIT, STATEMENT_LIMIT, "SELECT 1"])
    ensures PrepareMigrationStatements(Wrapped(Wrapped("SELECT 1"))) == Err(UnexpectedBoundary)
  {
    QuerySplits("SELECT 1");
    PlainQuery("SELECT 1");
    hide SplitSpec, Wrapped, IsTransactionWord, BuildsConcurrently;
    WrappedTwice("SELECT 1");
    OneStatement("SELECT 1");
    assert [LOCK_LIMIT, STATEMENT_LIMIT] + ["SELECT 1"] == [LOCK_LIMIT, STATEMENT_LIMIT, "SELECT 1"];
  }

  lemma QuerySplits(query: string)
    requires query == "SELECT 1"
    ensures SplitSpec(query) == Ok([query])
  {
    PlainClosed(query);
    hide Closed, SplitSpec;
    SplitRoundTrip([query]);
    assert Join([query]) == query;
  }

  lemma OneStatement(statement: string)
    requires !IsTransactionWord(statement) && !BuildsConcurrently(statement)
    ensures PrepareStatements([statement]) == Ok([LOCK_LIMIT, STATEMENT_LIMIT] + [statement])
  {
  }

  lemma PlainQuery(query: string)
    requires query == "SELECT 1"
    ensures !IsTransactionWord(query) && !BuildsConcurrently(query)
  {
    forall i, words: seq<string> | 0 <= i < |query| && words != []
      && words[0] in ["CREATE", "BEGIN", "COMMIT", "ROLLBACK"]
      ensures Text.AfterWords(query, i, words) == -1
    {
      NoSuchWord(query, i, words[0]);
    }
  }

  lemma NoSuchWord(query: string, i: nat, word: string)
    requires query == "SELECT 1" && word in ["CREATE", "BEGIN", "COMMIT", "ROLLBACK"]
    ensures !Text.WordAt(query, i, word)
  {
    assert word[0] in "BCR" && |word| >= 5;
    assert forall k :: 0 <= k <= 3 ==> query[k] in "SEL";
  }

  /** The words that begin or end a transaction, with or without WORK or TRANSACTION. */
  ghost predicate SpellsBoundary(statement: string, word: string) {
    || Text.SameWord(statement, word)
    || Text.Spelled(statement, [word, "WORK"]) || Text.Spelled(statement, [word, "TRANSACTION"])
  }

  lemma BoundaryExactly(statement: string, word: string)
    requires word in ["BEGIN", "COMMIT", "ROLLBACK"]
    ensures IsBoundary(statement, word) <==> SpellsBoundary(statement, word)
  {
    assert Text.Upright([word]) && Text.Upright([word, "WORK"]) && Text.Upright([word, "TRANSACTION"]);
    Text.IsWordsExactly(statement, [word]);
    Text.IsWordsExactly(statement, [word, "WORK"]);
    Text.IsWordsExactly(statement, [word, "TRANSACTION"]);
    hide Text.Upright, Text.IsWords;
    assert Text.Spelled(statement, [word]) <==> Text.SameWord(statement, word);
  }

  /** What a transactional migration must not hold, said of the statement's own letters. */
  lemma TransactionWordsExactly(statement: string)
    ensures IsTransactionWord(statement) <==>
      SpellsBoundary(statement, "BEGIN") || SpellsBoundary(statement, "COMMIT") || SpellsBoundary(statement, "ROLLBACK")
  {
    BoundaryExactly(statement, "BEGIN");
    BoundaryExactly(statement, "COMMIT");
    BoundaryExactly(statement, "ROLLBACK");
    hide IsBoundary, SpellsBoundary;
  }

  lemma ConcurrentBuildExactly(statement: string)
    ensures BuildsConcurrently(statement) <==>
      exists i, j :: 0 <= i <= j <= |statement| && Text.Bounded(statement, i, j)
        && (Text.Spelled(statement[i..j], ["CREATE", "INDEX", "CONCURRENTLY"])
            || Text.Spelled(statement[i..j], ["CREATE", "UNIQUE", "INDEX", "CONCURRENTLY"]))
  {
    var plain, unique := ["CREATE", "INDEX", "CONCURRENTLY"], ["CREATE", "UNIQUE", "INDEX", "CONCURRENTLY"];
    assert Text.Upright(plain) && Text.Upright(unique);
    Text.ContainsWordsExactly(statement, plain);
    Text.ContainsWordsExactly(statement, unique);
    hide Text.Upright, Text.Spelled, Text.ContainsWords, Text.Bounded;
  }

  /** No transaction word and no concurrent index build is ever run inside the transaction. */
  lemma PreparedIsTransactional(ddl: string)
    requires PrepareMigrationStatements(ddl).Ok?
    ensures var run := PrepareMigrationStatements(ddl).value;
      && |run| >= 3
      && run[0] == "SET LOCAL lock_timeout = '5s'" && run[1] == "SET LOCAL statement_timeout = '120s'"
      && (forall i :: 2 <= i < |run| ==> !IsTransactionWord(run[i]) && !BuildsConcurrently(run[i]))
      && var statements := SplitSpec(ddl).value;
         (run[2..] == statements
         || (2 < |statements| && run[2..] == statements[1..|statements| - 1]
             && IsBoundary(statements[0], "BEGIN") && IsBoundary(statements[|statements| - 1], "COMMIT")))
  {
    var run := PrepareMigrationStatements(ddl).value;
    var statements := SplitSpec(ddl).value;
    var inner := if IsBoundary(statements[0], "BEGIN") then statements[1..|statements| - 1] else statements;
    assert run[2..] == inner;
  }
}
