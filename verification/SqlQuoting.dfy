/**
 What the lexer's quoted stretches are, said of the text alone: where a dollar-quoted body, a
 quoted string or identifier, a nested comment and a line comment begin and end.
 */
module SqlQuoting {
  import opened Common
  import opened SqlLexer
  import Text

  // ----- dollar quoting

  predicate TagHead(c: char) {
    'a' <= c <= 'z' || 'A' <= c <= 'Z' || c == '_'
  }

  predicate TagPart(c: char) {
    TagHead(c) || '0' <= c <= '9'
  }

  /** A tag is empty, or a letter or underscore followed by letters, underscores and digits. */
  predicate IsTag(t: string) {
    t == "" || (TagHead(t[0]) && forall i | 0 <= i < |t| :: TagPart(t[i]))
  }

  predicate IsDelimiter(d: string) {
    2 <= |d| && d[0] == '$' && d[|d| - 1] == '$' && IsTag(d[1..|d| - 1])
  }

  lemma {:induction false} TagLengthIs(s: string, n: nat)
    requires n < |s| && s[n] == '$' && forall i :: 0 <= i < n ==> TagPart(s[i])
    ensures TagLength(s) == n
    decreases n
  {
    if n > 0 {
      TagLengthIs(s[1..], n - 1);
    }
  }

  lemma {:induction false} TagLengthMeans(s: string)
    ensures forall i :: 0 <= i < TagLength(s) ==> TagPart(s[i])
  {
    if s != "" && Text.IsWordChar(s[0]) {
      TagLengthMeans(s[1..]);
      forall i | 0 <= i < TagLength(s) ensures TagPart(s[i]) {
        if i > 0 {
          assert s[i] == s[1..][i - 1];
        }
      }
    }
  }

  /** A text that starts with a delimiter opens with exactly this one. */
  lemma DelimiterOpens(d: string, s: string)
    requires IsDelimiter(d) && d <= s
    ensures DollarTag(s) == |d|
  {
    assert forall i :: 0 <= i < |d| ==> s[i] == d[i];
    if |d| > 2 {
      var t := d[1..|d| - 1];
      assert s[1] == t[0] && TagHead(t[0]);
      forall i | 0 <= i < |t| ensures TagPart(s[1..][i]) {
        assert t[i] == s[1..][i];
      }
      TagLengthIs(s[1..], |t|);
    }
  }

  /** What opens is a delimiter. */
  lemma OpensDelimiter(s: string)
    requires DollarTag(s) != 0
    ensures IsDelimiter(s[..DollarTag(s)])
  {
    var n := DollarTag(s);
    if n > 2 {
      TagLengthMeans(s[1..]);
      var t := s[..n][1..n - 1];
      assert forall i :: 0 <= i < |t| ==> t[i] == s[1..][i];
    }
  }

  /** The text holds the delimiter nowhere before its end. */
  ghost predicate EndsAtFirst(body: string, d: string) {
    && |d| <= |body| && body[|body| - |d|..] == d
    && forall k :: 0 <= k < |body| - |d| ==> !(d <= body[k..])
  }

  lemma {:induction false} FirstRepetition(body: string, rest: string, d: string)
    requires d != "" && EndsAtFirst(body, d)
    ensures DollarEnd(body + rest, d) == Some(|body|)
    decreases |body|
  {
    if |body| == |d| {
      assert body == d && d <= body + rest;
    } else {
      assert body[0..] == body;
      assert (body + rest)[..|d|] == body[..|d|];
      assert body[1..][|body| - 1 - |d|..] == d;
      forall k | 0 <= k < |body| - 1 - |d| ensures !(d <= body[1..][k..]) {
        assert body[1..][k..] == body[k + 1..];
      }
      assert (body + rest)[1..] == body[1..] + rest;
      FirstRepetition(body[1..], rest, d);
    }
  }

  lemma {:induction false} NoRepetition(body: string, d: string)
    requires d != "" && forall k :: 0 <= k <= |body| ==> !(d <= body[k..])
    ensures DollarEnd(body, d).None?
    decreases |body|
  {
    assert body[0..] == body;
    if body != "" {
      forall k | 0 <= k <= |body| - 1 ensures !(d <= body[1..][k..]) {
        assert body[1..][k..] == body[k + 1..];
      }
      NoRepetition(body[1..], d);
    }
  }

  lemma DollarComesFirst(d: string, s: string)
    requires IsDelimiter(d) && d <= s
    ensures First(s) == Closing(|d|, DollarEnd(s[|d|..], d), DollarQuoted(d))
  {
    DelimiterOpens(d, s);
    StartsWithPair('-', '-', s);
    StartsWithPair('/', '*', s);
    assert s[0] == '$' && s[..|d|] == d;
  }

  /**
   A dollar-quoted body: after a delimiter everything up to the delimiter's first repetition is one
   lexeme, whatever it holds and whatever follows it.
   */
  lemma DollarBody(d: string, body: string, rest: string)
    requires IsDelimiter(d) && EndsAtFirst(body, d)
    ensures First(d + body + rest) == Whole(|d| + |body|)
    ensures Lex(d + body) == Pieces([d + body])
  {
    BodyLexeme(d, body, rest);
    BodyLexeme(d, body, "");
    hide First, EndsAtFirst;
    assert d + body + "" == d + body && (d + body)[0] == d[0];
    OneLexeme(d + body);
  }

  lemma BodyLexeme(d: string, body: string, rest: string)
    requires IsDelimiter(d) && EndsAtFirst(body, d)
    ensures First(d + body + rest) == Whole(|d| + |body|)
  {
    var s := d + body + rest;
    assert s[|d|..] == body + rest;
    DollarComesFirst(d, s);
    FirstRepetition(body, rest, d);
    hide First, EndsAtFirst, DollarEnd, IsDelimiter;
  }

  lemma OneLexeme(s: string)
    requires s != "" && s[0] != ';' && First(s) == Whole(|s|)
    ensures Lex(s) == Pieces([s])
  {
    assert s[..|s|] == s && s[|s|..] == "" && s + "" == s;
  }

  /** A delimiter that is never repeated leaves the text unterminated. */
  lemma DollarNeverCloses(d: string, body: string)
    requires IsDelimiter(d) && forall k :: 0 <= k <= |body| ==> !(d <= body[k..])
    ensures First(d + body) == Broken(DollarQuoted(d))
  {
    DollarComesFirst(d, d + body);
    assert (d + body)[|d|..] == body;
    NoRepetition(body, d);
  }

  /** A dollar sign that starts no delimiter opens nothing. */
  lemma LoneDollar(s: string)
    requires s != "" && s[0] == '$' && forall d :: IsDelimiter(d) ==> !(d <= s)
    ensures First(s) == Whole(1)
  {
    StartsWithPair('-', '-', s);
    StartsWithPair('/', '*', s);
    if DollarTag(s) != 0 {
      OpensDelimiter(s);
    }
  }

  // ----- quoted strings and identifiers

  /** The text with every quote written twice. */
  function Doubled(u: string, quote: char): string {
    if u == "" then "" else (if u[0] == quote then [quote, quote] else [u[0]]) + Doubled(u[1..], quote)
  }

  lemma {:induction false} QuotedLength(u: string, quote: char, rest: string)
    requires rest == "" || rest[0] != quote
    ensures QuoteEnd(Doubled(u, quote) + [quote] + rest, quote) == Some(|Doubled(u, quote)| + 1)
    decreases |u|
  {
    var s := Doubled(u, quote) + [quote] + rest;
    if u == "" {
      assert s == [quote] + rest;
    } else {
      QuotedLength(u[1..], quote, rest);
      var tail := Doubled(u[1..], quote) + [quote] + rest;
      var head := if u[0] == quote then [quote, quote] else [u[0]];
      assert s == head + tail;
      QuoteStep(u[0], quote, tail);
    }
  }

  lemma QuoteStep(c: char, quote: char, tail: string)
    ensures QuoteEnd((if c == quote then [quote, quote] else [c]) + tail, quote)
         == Plus(if c == quote then 2 else 1, QuoteEnd(tail, quote))
  {
    if c == quote {
      assert ([quote, quote] + tail)[2..] == tail;
    } else {
      assert ([c] + tail)[1..] == tail;
    }
  }

  /** And what a quote closes is such a text. */
  lemma {:induction false} QuotedMeans(s: string, quote: char) returns (u: string)
    requires QuoteEnd(s, quote).Some?
    ensures var n := QuoteEnd(s, quote).value;
      && s[..n] == Doubled(u, quote) + [quote]
      && (n == |s| || s[n] != quote)
    decreases |s|
  {
    var n := QuoteEnd(s, quote).value;
    if s[0] != quote {
      var v := QuotedMeans(s[1..], quote);
      u := [s[0]] + v;
      assert u[1..] == v && s[..n] == [s[0]] + s[1..][..n - 1];
    } else if 1 < |s| && s[1] == quote {
      var v := QuotedMeans(s[2..], quote);
      u := [quote] + v;
      assert u[1..] == v && s[..n] == [quote, quote] + s[2..][..n - 2];
    } else {
      u := "";
      assert s[..1] == [quote];
    }
  }

  /** A quoted stretch ends after n characters exactly when they are some text with doubled quotes, and the quote. */
  lemma QuoteEndsExactly(s: string, quote: char, n: nat)
    requires n <= |s|
    ensures QuoteEnd(s, quote) == Some(n)
       <==> (n == |s| || s[n] != quote) && exists u :: s[..n] == Doubled(u, quote) + [quote]
  {
    if QuoteEnd(s, quote) == Some(n) {
      var u := QuotedMeans(s, quote);
    }
    if (n == |s| || s[n] != quote) && exists u :: s[..n] == Doubled(u, quote) + [quote] {
      var u :| s[..n] == Doubled(u, quote) + [quote];
      QuotedLength(u, quote, s[n..]);
      assert s == Doubled(u, quote) + [quote] + s[n..];
    }
  }

  lemma Quoted(u: string, rest: string, quote: char)
    requires quote == '\'' || quote == '"'
    requires rest == "" || rest[0] != quote
    ensures First([quote] + Doubled(u, quote) + [quote] + rest) == Whole(|Doubled(u, quote)| + 2)
  {
    var s := [quote] + Doubled(u, quote) + [quote] + rest;
    StartsWithPair('-', '-', s);
    StartsWithPair('/', '*', s);
    assert s[1..] == Doubled(u, quote) + [quote] + rest;
    QuotedLength(u, quote, rest);
  }

  // ----- comments

  /** Where the balance of openings and closings, read from left to right, comes to zero. */
  function Balances(s: string, open: nat): Option<nat>
    decreases |s|
  {
    if open == 0 then Some(0)
    else if |s| < 2 then None
    else if s[0] == '/' && s[1] == '*' then Plus(2, Balances(s[2..], open + 1))
    else if s[0] == '*' && s[1] == '/' then Plus(2, Balances(s[2..], open - 1))
    else Plus(1, Balances(s[1..], open))
  }

  predicate OpensComment(s: string) {
    2 <= |s| && s[0] == '/' && s[1] == '*'
  }

  predicate ClosesComment(s: string) {
    2 <= |s| && s[0] == '*' && s[1] == '/'
  }

  lemma CommentStep(s: string)
    requires |s| >= 2
    ensures CommentEnd(s) ==
      if ClosesComment(s) then Some(2)
      else if OpensComment(s) then
        match CommentEnd(s[2..])
        case None => None
        case Some(n) => Plus(2 + n, CommentEnd(s[2 + n..]))
      else Plus(1, CommentEnd(s[1..]))
  {
    assert s[..2] == [s[0], s[1]];
  }

  lemma BalanceStep(s: string, open: nat)
    requires |s| >= 2
    ensures Balances(s, open + 1) ==
      if ClosesComment(s) then Plus(2, Balances(s[2..], open))
      else if OpensComment(s) then Plus(2, Balances(s[2..], open + 2))
      else Plus(1, Balances(s[1..], open + 1))
  {
  }

  lemma TooShort(s: string, open: nat)
    requires |s| < 2
    ensures CommentEnd(s).None? && Balances(s, open + 1).None?
  {
  }

  function AfterComment(s: string, open: nat): Option<nat> {
    match CommentEnd(s)
    case None => None
    case Some(n) => Plus(n, Balances(s[n..], open))
  }

  lemma {:induction false} CommentThenRest(s: string, open: nat)
    ensures Balances(s, open + 1) == AfterComment(s, open)
    decreases |s|
  {
    hide CommentEnd, Balances;
    if |s| < 2 {
      TooShort(s, open);
    } else {
      CommentStep(s);
      BalanceStep(s, open);
      if OpensComment(s) {
        CommentThenRest(s[2..], open + 1);
        if CommentEnd(s[2..]).Some? {
          var n := CommentEnd(s[2..]).value;
          CommentThenRest(s[2 + n..], open);
          SliceTwice(s, 2, n);
          if CommentEnd(s[2 + n..]).Some? {
            SliceTwice(s, 2 + n, CommentEnd(s[2 + n..]).value);
          }
        }
      } else if !ClosesComment(s) {
        CommentThenRest(s[1..], open);
        if CommentEnd(s[1..]).Some? {
          SliceTwice(s, 1, CommentEnd(s[1..]).value);
        }
      }
    }
  }

  lemma SliceTwice(s: string, n: nat, m: nat)
    ensures n + m <= |s| ==> s[n..][m..] == s[n + m..]
  {
  }

  /** A block comment ends where its openings and closings balance. */
  lemma CommentBalances(s: string)
    requires "/*" <= s
    ensures First(s) == Closing(2, Balances(s[2..], 1), BlockComment)
  {
    StartsWithPair('-', '-', s);
    StartsWithPair('/', '*', s);
    CommentThenRest(s[2..], 0);
    if CommentEnd(s[2..]).Some? {
      assert Balances(s[2..][CommentEnd(s[2..]).value..], 0) == Some(0);
    }
  }

  lemma {:induction false} LineEndIs(u: string, rest: string)
    requires '\n' !in u && (rest == "" || rest[0] == '\n')
    ensures LineEnd(u + rest) == |u| + (if rest == "" then 0 else 1)
  {
    if u == "" {
      assert u + rest == rest;
    } else {
      assert (u + rest)[1..] == u[1..] + rest;
      LineEndIs(u[1..], rest);
    }
  }

  /** A line comment runs to the end of its line, the newline included, or of the text. */
  lemma LineComment(u: string, rest: string)
    requires '\n' !in u && (rest == "" || rest[0] == '\n')
    ensures First("--" + u + rest) == Whole(2 + |u| + (if rest == "" then 0 else 1))
  {
    var s := "--" + u + rest;
    StartsWithPair('-', '-', s);
    assert s[2..] == u + rest;
    LineEndIs(u, rest);
  }

  /** Every other character stands for itself. */
  lemma PlainCharacter(s: string)
    requires s != "" && s[0] !in "-/'\"$"
    ensures First(s) == Whole(1)
  {
    StartsWithPair('-', '-', s);
    StartsWithPair('/', '*', s);
  }

  lemma LoneSign(s: string)
    requires s != "" && ((s[0] == '-' && (|s| == 1 || s[1] != '-')) || (s[0] == '/' && (|s| == 1 || s[1] != '*')))
    ensures First(s) == Whole(1)
  {
    StartsWithPair('-', '-', s);
    StartsWithPair('/', '*', s);
  }

  // ----- one statement

  lemma {:induction false} ClosedAfter(p: string, block: string)
    requires Closed(block) && forall i :: 0 <= i < |p| ==> p[i] !in "-/'\"$;"
    ensures Closed(p + block)
  {
    if p == "" {
      assert p + block == block;
    } else {
      ClosedAfter(p[1..], block);
      var s := p + block;
      assert s[1..] == p[1..] + block && s[0] == p[0];
      PlainCharacter(s);
      StartsWithPair('-', '-', s);
      hide First;
    }
  }

  lemma ClosedBody(d: string, body: string)
    requires IsDelimiter(d) && EndsAtFirst(body, d)
    ensures Closed(d + body)
  {
    var s := d + body;
    assert s + "" == s;
    DollarBody(d, body, "");
    StartsWithPair('-', '-', s);
    assert s[0] == '$' && s[|s|..] == "";
  }

  /** A block whose body holds semicolons is one statement, whatever its tag. */
  lemma BlockIsOneStatement(p: string, d: string, body: string)
    requires IsDelimiter(d) && EndsAtFirst(body, d)
    requires forall i :: 0 <= i < |p| ==> p[i] !in "-/'\"$;"
    requires p != "" && !Text.IsSpace(p[0])
    ensures SplitSpec(p + (d + body)) == Ok([p + (d + body)])
  {
    var block := p + (d + body);
    ClosedBody(d, body);
    ClosedAfter(p, d + body);
    assert body[|body| - |d|..] == d;
    assert block[|block| - 1] == d[|d| - 1] == '$' && block[0] == p[0];
    hide Closed, SplitSpec, EndsAtFirst, IsDelimiter;
    SplitRoundTrip([block]);
    assert Join([block]) == block;
  }

  /** Such blocks as migrations run: any tag around statements without a dollar sign. */
  lemma MigrationBlock(t: string, statements: string)
    requires IsTag(t) && '$' !in statements
    ensures var block := "DO " + (Delimiter(t) + (statements + Delimiter(t)));
      SplitSpec(block) == Ok([block])
  {
    DelimiterOf(t);
    PlainDo("DO ");
    EndsOnce(statements, Delimiter(t));
    hide SplitSpec, IsDelimiter, EndsAtFirst, IsTag, Delimiter;
    BlockIsOneStatement("DO ", Delimiter(t), statements + Delimiter(t));
  }

  function Delimiter(t: string): string {
    "$" + t + "$"
  }

  lemma DelimiterOf(t: string)
    requires IsTag(t)
    ensures IsDelimiter(Delimiter(t)) && Delimiter(t) != "" && Delimiter(t)[0] == '$'
  {
    var d := Delimiter(t);
    assert d[1..|d| - 1] == t;
  }

  lemma PlainDo(p: string)
    requires p == "DO "
    ensures p != "" && !Text.IsSpace(p[0]) && forall i :: 0 <= i < |p| ==> p[i] !in "-/'\"$;"
  {
  }

  lemma EndsOnce(text: string, d: string)
    requires d != "" && d[0] !in text
    ensures EndsAtFirst(text + d, d)
  {
    var body := text + d;
    assert body[|body| - |d|..] == d;
    forall k | 0 <= k < |body| - |d| ensures !(d <= body[k..]) {
      assert body[k..][0] == text[k];
    }
  }
}
