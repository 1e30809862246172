/**
 A recursive lexer for migration SQL, written apart from the splitter of scripts/migrate.ts.

 It has no modes and no depth counter: a nested comment is lexed by a recursive call, after
 sections 4.1.2.4 (dollar quoting) and 4.1.5 (nested comments) of the PostgreSQL manual.
 Every scanner takes the text that follows the opening delimiter and answers how long the
 lexeme's remainder is, or that it never ends.
 */
module SqlLexer {
  import opened Common
  import Text

  datatype Unterminated = SingleQuoted | DoubleQuoted | BlockComment | DollarQuoted(tag: string)

  datatype Lexeme = Whole(length: nat) | Broken(what: Unterminated)

  datatype Lexed = Pieces(pieces: seq<string>) | Open(what: Unterminated)

  function Plus(n: nat, rest: Option<nat>): Option<nat> {
    if rest.Some? then Some(n + rest.value) else None
  }

  /** A line comment runs through its newline, or to the end of the text. */
  function LineEnd(s: string): (n: nat)
    ensures n <= |s|
  {
    if s == "" then 0 else if s[0] == '\n' then 1 else 1 + LineEnd(s[1..])
  }

  /** A block comment: nested comments are skipped whole. */
  function CommentEnd(s: string): (r: Option<nat>)
    ensures r.Some? ==> 2 <= r.value <= |s|
    decreases |s|
  {
    if |s| < 2 then None
    else if s[..2] == "*/" then Some(2)
    else if s[..2] == "/*" then
      var inner := CommentEnd(s[2..]);
      if inner.None? then None
      else Plus(2 + inner.value, CommentEnd(s[2 + inner.value..]))
    else Plus(1, CommentEnd(s[1..]))
  }

  /** A quoted string or identifier: two quotes in a row stand for one and do not close it. */
  function QuoteEnd(s: string, quote: char): (r: Option<nat>)
    ensures r.Some? ==> 1 <= r.value <= |s|
    decreases |s|
  {
    if s == "" then None
    else if s[0] != quote then Plus(1, QuoteEnd(s[1..], quote))
    else if 1 < |s| && s[1] == quote then Plus(2, QuoteEnd(s[2..], quote))
    else Some(1)
  }

  /** A dollar-quoted body runs through the first repetition of its delimiter. */
  function DollarEnd(s: string, tag: string): (r: Option<nat>)
    ensures r.Some? ==> |tag| <= r.value <= |s|
    decreases |s|
  {
    if tag <= s then Some(|tag|)
    else if s == "" then None
    else Plus(1, DollarEnd(s[1..], tag))
  }

  predicate IsTagStart(c: char) {
    Text.IsLetter(c) || c == '_'
  }

  function TagLength(s: string): (n: nat)
    ensures n <= |s|
  {
    if s != "" && Text.IsWordChar(s[0]) then 1 + TagLength(s[1..]) else 0
  }

  /** The length of the dollar delimiter at the head of s, or 0. */
  function DollarTag(s: string): (n: nat)
    ensures n <= |s|
    ensures n != 0 ==> 2 <= n && s[0] == '$' && s[n - 1] == '$'
  {
    if |s| < 2 || s[0] != '$' then 0
    else if s[1] == '$' then 2
    else if !IsTagStart(s[1]) then 0
    else
      var n := TagLength(s[1..]);
      if 1 + n < |s| && s[1 + n] == '$' then n + 2 else 0
  }

  function Closing(opening: nat, rest: Option<nat>, what: Unterminated): Lexeme {
    if rest.Some? then Whole(opening + rest.value) else Broken(what)
  }

  /** The lexeme at the head of s. */
  function First(s: string): (l: Lexeme)
    requires s != ""
    ensures l.Whole? ==> 1 <= l.length <= |s|
  {
    if "--" <= s then Whole(2 + LineEnd(s[2..]))
    else if "/*" <= s then Closing(2, CommentEnd(s[2..]), BlockComment)
    else if s[0] == '\'' then Closing(1, QuoteEnd(s[1..], '\''), SingleQuoted)
    else if s[0] == '"' then Closing(1, QuoteEnd(s[1..], '"'), DoubleQuoted)
    else if DollarTag(s) != 0 then
      var n := DollarTag(s);
      Closing(n, DollarEnd(s[n..], s[..n]), DollarQuoted(s[..n]))
    else Whole(1)
  }

  /** Puts text before the first piece. */
  function Prefix(text: string, l: Lexed): (r: Lexed)
    ensures l.Pieces? ==> r.Pieces? && |r.pieces| == |l.pieces|
  {
    if l.Pieces? && l.pieces != [] then Pieces([text + l.pieces[0]] + l.pieces[1..]) else l
  }

  function Add(piece: string, l: Lexed): Lexed {
    if l.Pieces? then Pieces([piece] + l.pieces) else l
  }

  /** The text between top-level semicolons. */
  function Lex(s: string): (l: Lexed)
    ensures l.Pieces? ==> l.pieces != []
    decreases |s|
  {
    if s == "" then Pieces([""])
    else if s[0] == ';' then Add("", Lex(s[1..]))
    else
      match First(s)
      case Broken(what) => Open(what)
      case Whole(n) => Prefix(s[..n], Lex(s[n..]))
  }

  function Join(pieces: seq<string>): string
    requires pieces != []
  {
    if |pieces| == 1 then pieces[0] else pieces[0] + ";" + Join(pieces[1..])
  }

  // ----- which pieces there can be

  /** A line comment that the end of the text closes. */
  predicate OpenLine(s: string) {
    "--" <= s && 2 + LineEnd(s[2..]) == |s| && s[|s| - 1] != '\n'
  }

  /** Lexed alone, the text holds no top-level semicolon and every lexeme in it ends. */
  predicate Settled(s: string)
    decreases |s|
  {
    s == "" || (s[0] != ';' && First(s).Whole? && Settled(s[First(s).length..]))
  }

  /** Settled, and not in a line comment at its end: lexing starts and stops in normal text. */
  predicate Closed(s: string)
    decreases |s|
  {
    s == "" || (s[0] != ';' && First(s).Whole? && !OpenLine(s) && Closed(s[First(s).length..]))
  }

  ghost predicate AllClosed(pieces: seq<string>) {
    && pieces != []
    && (forall i :: 0 <= i < |pieces| - 1 ==> Closed(pieces[i]))
    && Settled(pieces[|pieces| - 1])
  }

  // ----- lexemes do not look past a neutral character

  /** A character that continues no lexeme: among others `;` and a newline. */
  predicate Neutral(c: char) {
    !Text.IsWordChar(c) && c !in "-*/'\"$"
  }

  lemma Drop(a: string, b: string, n: nat)
    requires n <= |a|
    ensures (a + b)[n..] == a[n..] + b && (a + b)[..n] == a[..n]
  {
  }

  lemma {:induction false} LineEndLocal(z: string, t: string)
    requires LineEnd(z) < |z| || (z != "" && z[|z| - 1] == '\n')
    ensures LineEnd(z + t) == LineEnd(z)
  {
    if z[0] != '\n' {
      Drop(z, t, 1);
      LineEndLocal(z[1..], t);
    }
  }

  lemma {:induction false} LineEndBack(z: string, t: string)
    requires LineEnd(z + t) <= |z|
    ensures t != "" ==> (LineEnd(z) < |z| || (z != "" && z[|z| - 1] == '\n'))
    ensures LineEnd(z + t) == LineEnd(z)
  {
    if z == "" {
      assert z + t == t;
    } else if z[0] != '\n' {
      Drop(z, t, 1);
      LineEndBack(z[1..], t);
    }
  }

  lemma {:induction false} CommentEndLocal(z: string, t: string)
    requires CommentEnd(z).Some?
    ensures CommentEnd(z + t) == CommentEnd(z)
    decreases |z|
  {
    Drop(z, t, 2);
    if z[..2] == "*/" {
    } else if z[..2] == "/*" {
      CommentEndLocal(z[2..], t);
      var n := 2 + CommentEnd(z[2..]).value;
      Drop(z, t, n);
      CommentEndLocal(z[n..], t);
    } else {
      Drop(z, t, 1);
      CommentEndLocal(z[1..], t);
    }
  }

  lemma {:induction false} CommentEndBack(z: string, t: string)
    requires CommentEnd(z + t).Some? && CommentEnd(z + t).value <= |z|
    ensures CommentEnd(z) == CommentEnd(z + t)
    decreases |z|
  {
    Drop(z, t, 2);
    if z[..2] == "*/" {
    } else if z[..2] == "/*" {
      CommentEndBack(z[2..], t);
      var n := 2 + CommentEnd(z[2..]).value;
      Drop(z, t, n);
      CommentEndBack(z[n..], t);
    } else {
      Drop(z, t, 1);
      CommentEndBack(z[1..], t);
    }
  }

  lemma {:induction false} QuoteEndLocal(z: string, t: string, quote: char)
    requires QuoteEnd(z, quote).Some? && t != "" && t[0] != quote
    ensures QuoteEnd(z + t, quote) == QuoteEnd(z, quote)
    decreases |z|
  {
    if z[0] != quote {
      Drop(z, t, 1);
      QuoteEndLocal(z[1..], t, quote);
    } else if 1 < |z| && z[1] == quote {
      Drop(z, t, 2);
      QuoteEndLocal(z[2..], t, quote);
    }
  }

  lemma {:induction false} QuoteEndBack(z: string, t: string, quote: char)
    requires t != "" && t[0] != quote
    requires QuoteEnd(z + t, quote).Some? && QuoteEnd(z + t, quote).value <= |z|
    ensures QuoteEnd(z, quote) == QuoteEnd(z + t, quote)
    decreases |z|
  {
    if z[0] != quote {
      Drop(z, t, 1);
      QuoteEndBack(z[1..], t, quote);
    } else if 1 < |z| && z[1] == quote {
      Drop(z, t, 2);
      QuoteEndBack(z[2..], t, quote);
    }
  }

  lemma {:induction false} DollarEndLocal(z: string, t: string, tag: string)
    requires DollarEnd(z, tag).Some?
    ensures DollarEnd(z + t, tag) == DollarEnd(z, tag)
    decreases |z|
  {
    if !(tag <= z) {
      Drop(z, t, 1);
      DollarEndLocal(z[1..], t, tag);
      // An occurrence at the head of z + t that is none of z reaches past z.
      assert |tag| <= |z| && (z + t)[..|tag|] == z[..|tag|];
    }
  }

  lemma {:induction false} DollarEndBack(z: string, t: string, tag: string)
    requires DollarEnd(z + t, tag).Some? && DollarEnd(z + t, tag).value <= |z|
    ensures DollarEnd(z, tag) == DollarEnd(z + t, tag)
    decreases |z|
  {
    if tag <= z + t {
      assert (z + t)[..|tag|] == z[..|tag|];
    } else {
      assert |tag| <= |z| ==> z[..|tag|] == (z + t)[..|tag|];
      Drop(z, t, 1);
      DollarEndBack(z[1..], t, tag);
    }
  }

  lemma {:induction false} TagLengthLocal(z: string, t: string)
    requires t == "" || !Text.IsWordChar(t[0])
    ensures TagLength(z + t) == TagLength(z)
  {
    if z == "" {
      assert z + t == t;
    } else if Text.IsWordChar(z[0]) {
      Drop(z, t, 1);
      TagLengthLocal(z[1..], t);
    }
  }

  lemma DollarTagLocal(z: string, t: string)
    requires z != "" && t != "" && Neutral(t[0])
    ensures DollarTag(z + t) == DollarTag(z)
  {
    if |z| >= 2 {
      Drop(z, t, 1);
      TagLengthLocal(z[1..], t);
    }
  }

  lemma OpeningLocal(z: string, t: string)
    requires z != "" && t != "" && Neutral(t[0])
    ensures "--" <= z + t <==> "--" <= z
    ensures "/*" <= z + t <==> "/*" <= z
  {
    StartsWithPair('-', '-', z);
    StartsWithPair('-', '-', z + t);
    StartsWithPair('/', '*', z);
    StartsWithPair('/', '*', z + t);
  }

  lemma StartsWithPair(a: char, b: char, s: string)
    ensures [a, b] <= s <==> 2 <= |s| && s[0] == a && s[1] == b
  {
    if 2 <= |s| {
      assert s[..2] == [s[0], s[1]];
    }
  }

  /** Text after a lexeme that starts with a neutral character does not change the lexeme. */
  lemma FirstLocal(z: string, t: string)
    requires z != "" && t != "" && Neutral(t[0])
    requires First(z).Whole? && !OpenLine(z)
    ensures First(z + t) == First(z)
  {
    OpeningLocal(z, t);
    DollarTagLocal(z, t);
    Drop(z, t, 1);
    if "--" <= z {
      Drop(z, t, 2);
      LineEndLocal(z[2..], t);
    } else if "/*" <= z {
      Drop(z, t, 2);
      CommentEndLocal(z[2..], t);
    } else if z[0] == '\'' || z[0] == '"' {
      QuoteEndLocal(z[1..], t, z[0]);
    } else if DollarTag(z) != 0 {
      var n := DollarTag(z);
      Drop(z, t, n);
      DollarEndLocal(z[n..], t, z[..n]);
    }
  }

  /** And a lexeme that ends inside z is one of z alone. */
  lemma FirstBack(z: string, t: string)
    requires z != "" && t != "" && Neutral(t[0])
    requires First(z + t).Whole? && First(z + t).length <= |z|
    ensures First(z) == First(z + t) && !OpenLine(z)
  {
    OpeningLocal(z, t);
    DollarTagLocal(z, t);
    Drop(z, t, 1);
    if "--" <= z {
      Drop(z, t, 2);
      LineEndBack(z[2..], t);
    } else if "/*" <= z {
      Drop(z, t, 2);
      CommentEndBack(z[2..], t);
    } else if z[0] == '\'' || z[0] == '"' {
      QuoteEndBack(z[1..], t, z[0]);
    } else if DollarTag(z) != 0 {
      var n := DollarTag(z);
      Drop(z, t, n);
      DollarEndBack(z[n..], t, z[..n]);
    }
  }

  // ----- pieces of a text and texts of pieces

  /** Lexing loses nothing: the pieces joined by semicolons are the text. */
  lemma {:induction false} JoinOfLex(s: string)
    requires Lex(s).Pieces?
    ensures Join(Lex(s).pieces) == s
    decreases |s|
  {
    hide First, LineEnd, CommentEnd, QuoteEnd, DollarEnd;
    if s == "" {
    } else if s[0] == ';' {
      JoinOfLex(s[1..]);
      assert s == "" + ";" + s[1..];
      assert Lex(s).pieces[1..] == Lex(s[1..]).pieces;
    } else {
      var n := First(s).length;
      JoinOfLex(s[n..]);
      var rest := Lex(s[n..]).pieces;
      assert Lex(s).pieces[1..] == rest[1..];
      assert s == s[..n] + s[n..];
      if |rest| > 1 {
        assert s[..n] + (rest[0] + ";" + Join(rest[1..])) == (s[..n] + rest[0]) + ";" + Join(rest[1..]);
      }
    }
  }

  lemma {:induction false} ClosedIsSettled(s: string)
    requires Closed(s)
    ensures Settled(s)
    decreases |s|
  {
    if s != "" {
      ClosedIsSettled(s[First(s).length..]);
    }
  }

  /** A settled text is one piece. */
  lemma {:induction false} LexSettled(p: string)
    requires Settled(p)
    ensures Lex(p) == Pieces([p])
    decreases |p|
  {
    if p != "" {
      var n := First(p).length;
      LexSettled(p[n..]);
      assert p == p[..n] + p[n..];
    }
  }

  /** The first semicolon after a closed text is a cut. */
  lemma {:induction false} LexCut(p: string, y: string)
    requires Closed(p)
    ensures Lex(p + ";" + y) == Add(p, Lex(y))
    decreases |p|
  {
    hide First, LineEnd, CommentEnd, QuoteEnd, DollarEnd;
    var t := ";" + y;
    assert p + ";" + y == p + t;
    if p == "" {
      assert p + t == t && t[1..] == y;
    } else {
      FirstLocal(p, t);
      var n := First(p).length;
      Drop(p, t, n);
      assert p[n..] + ";" + y == p[n..] + t;
      LexCut(p[n..], y);
      assert p[..n] + p[n..] == p;
      if Lex(y).Pieces? {
        assert ([p[n..]] + Lex(y).pieces)[1..] == Lex(y).pieces;
      }
    }
  }

  /** Closed pieces, the last of which may end in an open line comment, are lexed back. */
  lemma {:induction false} LexOfJoin(pieces: seq<string>)
    requires AllClosed(pieces)
    ensures Lex(Join(pieces)) == Pieces(pieces)
    decreases |pieces|
  {
    if |pieces| == 1 {
      LexSettled(pieces[0]);
    } else {
      assert AllClosed(pieces[1..]) by {
        assert pieces[1..][|pieces| - 2] == pieces[|pieces| - 1];
      }
      LexOfJoin(pieces[1..]);
      LexCut(pieces[0], Join(pieces[1..]));
    }
  }

  /** No piece starts or ends inside a string, an identifier, a comment or a dollar body. */
  lemma {:induction false} LexedPiecesClosed(s: string)
    requires Lex(s).Pieces?
    ensures AllClosed(Lex(s).pieces)
    decreases |s|
  {
    if s == "" {
    } else if s[0] == ';' {
      LexedPiecesClosed(s[1..]);
    } else {
      var n := First(s).length;
      LexedPiecesClosed(s[n..]);
      JoinOfLex(s[n..]);
      FirstPieceClosed(s, n, Lex(s[n..]).pieces);
    }
  }

  lemma FirstPieceClosed(s: string, n: nat, rest: seq<string>)
    requires s != "" && s[0] != ';' && First(s) == Whole(n)
    requires AllClosed(rest) && Join(rest) == s[n..]
    ensures AllClosed([s[..n] + rest[0]] + rest[1..])
  {
    hide First, LineEnd, CommentEnd, QuoteEnd, DollarEnd, OpenLine, Lex;
    var p := s[..n] + rest[0];
    if |rest| == 1 {
      PutBack(s, n, rest[0], "");
      assert p + "" == p;
    } else {
      PutBack(s, n, rest[0], ";" + Join(rest[1..]));
      FirstBack(p, ";" + Join(rest[1..]));
      assert Closed(rest[0]);
    }
  }

  lemma PutBack(s: string, n: nat, head: string, tail: string)
    requires n <= |s| && s[n..] == head + tail
    ensures s[..n] + head + tail == s && (s[..n] + head)[n..] == head
  {
  }

  /**
   The lexer and the join are inverse: pieces are the lexed ones exactly when they join to the
   text and every one of them is closed.
   */
  lemma LexCharacterised(s: string, pieces: seq<string>)
    ensures Lex(s) == Pieces(pieces) <==> AllClosed(pieces) && Join(pieces) == s
  {
    if Lex(s) == Pieces(pieces) {
      JoinOfLex(s);
      LexedPiecesClosed(s);
    }
    if AllClosed(pieces) && Join(pieces) == s {
      LexOfJoin(pieces);
    }
  }

  // ----- statements

  function Statements(pieces: seq<string>): seq<string> {
    if pieces == [] then []
    else
      var t := Text.Trim(pieces[0]);
      (if t == "" then [] else [t]) + Statements(pieces[1..])
  }

  function SplitSpec(s: string): Result<seq<string>, Unterminated> {
    match Lex(s)
    case Open(what) => Err(what)
    case Pieces(pieces) => Ok(Statements(pieces))
  }

  lemma {:induction false} StatementsConcat(a: seq<string>, b: seq<string>)
    ensures Statements(a + b) == Statements(a) + Statements(b)
    decreases |a|
  {
    if a == [] {
      assert a + b == b;
    } else {
      assert (a + b)[1..] == a[1..] + b;
      StatementsConcat(a[1..], b);
    }
  }

  lemma {:induction false} StatementsOfTrimmed(statements: seq<string>)
    requires forall i :: 0 <= i < |statements| ==> statements[i] != "" && Text.Trimmed(statements[i])
    ensures Statements(statements) == statements
    decreases |statements|
  {
    if statements != [] {
      Text.TrimmedIsFixed(statements[0]);
      StatementsOfTrimmed(statements[1..]);
    }
  }

  /** Splitting the join of trimmed, closed statements gives the statements back. */
  lemma SplitRoundTrip(statements: seq<string>)
    requires statements != []
    requires forall i :: 0 <= i < |statements| ==>
      statements[i] != "" && Text.Trimmed(statements[i]) && Closed(statements[i])
    ensures SplitSpec(Join(statements)) == Ok(statements)
  {
    ClosedIsSettled(statements[|statements| - 1]);
    LexOfJoin(statements);
    StatementsOfTrimmed(statements);
  }
}
