/** The character classes and word patterns that the migration scripts' regular expressions use. */
module Text {

  /** JavaScript white space: what `trim` removes and `\s` matches. */
  predicate IsSpace(c: char) {
    || '\t' <= c <= '\r' || c == ' ' || c == '\U{00A0}' || c == '\U{1680}'
    || '\U{2000}' <= c <= '\U{200A}' || c == '\U{2028}' || c == '\U{2029}'
    || c == '\U{202F}' || c == '\U{205F}' || c == '\U{3000}' || c == '\U{FEFF}'
  }

  predicate IsDigit(c: char) {
    '0' <= c <= '9'
  }

  predicate IsLetter(c: char) {
    'A' <= c <= 'Z' || 'a' <= c <= 'z'
  }

  predicate IsWordChar(c: char) {
    IsLetter(c) || IsDigit(c) || c == '_'
  }

  function Upper(c: char): char {
    if 'a' <= c <= 'z' then c - 'a' + 'A' else c
  }

  function TrimLeft(s: string): string {
    if s != "" && IsSpace(s[0]) then TrimLeft(s[1..]) else s
  }

  function TrimRight(s: string): string {
    if s != "" && IsSpace(s[|s| - 1]) then TrimRight(s[..|s| - 1]) else s
  }

  function Trim(s: string): string {
    TrimRight(TrimLeft(s))
  }

  predicate Trimmed(s: string) {
    s != "" ==> !IsSpace(s[0]) && !IsSpace(s[|s| - 1])
  }

  lemma TrimmedIsFixed(s: string)
    requires Trimmed(s)
    ensures Trim(s) == s
  {
  }

  lemma {:induction false} TrimAfterSpace(s: string, c: char)
    requires IsSpace(c)
    ensures Trim([c] + s) == Trim(s)
  {
    assert ([c] + s)[1..] == s;
  }

  lemma {:induction false} TrimBeforeSpace(s: string, c: char)
    requires IsSpace(c)
    ensures Trim(s + [c]) == Trim(s)
    decreases s
  {
    if s == "" {
      assert s + [c] == [c] && [c][1..] == "";
    } else if IsSpace(s[0]) {
      assert (s + [c])[1..] == s[1..] + [c];
      TrimBeforeSpace(s[1..], c);
    } else {
      assert (s + [c])[..|s|] == s;
    }
  }

  /** Whether `word`, given in upper case, stands at position i in any letter case. */
  predicate WordAt(s: string, i: nat, word: string) {
    i + |word| <= |s| && forall k :: 0 <= k < |word| ==> Upper(s[i + k]) == word[k]
  }

  function SkipSpaces(s: string, i: nat): (j: nat)
    requires i <= |s|
    ensures i <= j <= |s|
    decreases |s| - i
  {
    if i < |s| && IsSpace(s[i]) then SkipSpaces(s, i + 1) else i
  }

  /** The position after `words` separated by white space, starting at i. */
  function AfterWords(s: string, i: nat, words: seq<string>): (j: int)
    requires i <= |s|
    ensures -1 <= j <= |s|
    decreases |words|
  {
    if words == [] then i
    else if !WordAt(s, i, words[0]) then -1
    else
      var e := i + |words[0]|;
      if |words| == 1 then e
      else
        var j := SkipSpaces(s, e);
        if j == e then -1 else AfterWords(s, j, words[1..])
  }

  /** The whole string is one of the word lists, in any letter case: `^...$`. */
  predicate IsWords(s: string, words: seq<string>) {
    AfterWords(s, 0, words) == |s|
  }

  /** The words stand somewhere in the string, cut off by word boundaries: `\b...\b`. */
  predicate ContainsWords(s: string, words: seq<string>) {
    exists i | 0 <= i < |s| ::
      && (i == 0 || !IsWordChar(s[i - 1]))
      && var e := AfterWords(s, i, words);
         0 <= e && (e == |s| || !IsWordChar(s[e]))
  }

  // ----- what trimming and the word patterns mean

  /** White space and line ends, by code point, as ECMAScript lists them. */
  lemma SpacesListed(c: char)
    ensures IsSpace(c) <==>
      c as int in {9, 10, 11, 12, 13, 32, 160, 0x1680, 0x2000, 0x2001, 0x2002, 0x2003, 0x2004, 0x2005, 0x2006, 0x2007,
                   0x2008, 0x2009, 0x200a, 0x2028, 0x2029, 0x202f, 0x205f, 0x3000, 0xfeff}
  {
  }

  ghost predicate AllSpace(s: string) {
    forall i :: 0 <= i < |s| ==> IsSpace(s[i])
  }

  lemma {:induction false} TrimLeftCuts(s: string) returns (a: string)
    ensures s == a + TrimLeft(s) && AllSpace(a) && (TrimLeft(s) != "" ==> !IsSpace(TrimLeft(s)[0]))
  {
    if s != "" && IsSpace(s[0]) {
      a := TrimLeftCuts(s[1..]);
      a := [s[0]] + a;
    } else {
      a := "";
    }
  }

  lemma {:induction false} TrimRightCuts(s: string) returns (b: string)
    ensures s == TrimRight(s) + b && AllSpace(b)
    ensures TrimRight(s) != "" ==> !IsSpace(TrimRight(s)[|TrimRight(s)| - 1]) && TrimRight(s)[0] == s[0]
  {
    if s != "" && IsSpace(s[|s| - 1]) {
      b := TrimRightCuts(s[..|s| - 1]);
      b := b + [s[|s| - 1]];
    } else {
      b := "";
    }
  }

  /** Trimming cuts off white space at both ends and nothing else. */
  lemma TrimCuts(s: string) returns (a: string, b: string)
    ensures s == a + Trim(s) + b && AllSpace(a) && AllSpace(b) && Trimmed(Trim(s))
  {
    a := TrimLeftCuts(s);
    b := TrimRightCuts(TrimLeft(s));
  }

  /** The text is the word, given in upper case, in any letter case. */
  predicate SameWord(t: string, word: string) {
    |t| == |word| && forall k | 0 <= k < |t| :: t[k] == word[k] || ('a' <= t[k] <= 'z' && t[k] - 'a' + 'A' == word[k])
  }

  /** The text is the words in any letter case, with white space between them. */
  ghost predicate Spelled(t: string, words: seq<string>)
    decreases |words|
  {
    if words == [] then t == ""
    else if |words| == 1 then SameWord(t, words[0])
    else
      var n := |words[0]|;
      n <= |t| && SameWord(t[..n], words[0])
      && exists m :: n < m <= |t| && AllSpace(t[n..m]) && Spelled(t[m..], words[1..])
  }

  /** Words in upper case, none of them empty. */
  predicate Upright(words: seq<string>) {
    forall i | 0 <= i < |words| ::
      words[i] != "" && forall k | 0 <= k < |words[i]| :: 'A' <= words[i][k] <= 'Z' || words[i][k] == '_'
  }

  lemma WordHere(s: string, i: nat, word: string)
    requires forall k :: 0 <= k < |word| ==> 'A' <= word[k] <= 'Z' || word[k] == '_'
    ensures WordAt(s, i, word) <==> i + |word| <= |s| && SameWord(s[i..i + |word|], word)
  {
    if i + |word| <= |s| {
      var t := s[i..i + |word|];
      assert forall k :: 0 <= k < |word| ==> t[k] == s[i + k];
      if SameWord(t, word) {
        forall k | 0 <= k < |word| ensures Upper(s[i + k]) == word[k] {
          assert t[k] == s[i + k];
        }
      }
    }
  }

  lemma {:induction false} SpacesSkipped(s: string, i: nat, m: nat)
    requires i <= m < |s| && !IsSpace(s[m]) && forall k :: i <= k < m ==> IsSpace(s[k])
    ensures SkipSpaces(s, i) == m
    decreases m - i
  {
    if i < m {
      SpacesSkipped(s, i + 1, m);
    }
  }

  lemma {:induction false} SkipsSpaces(s: string, i: nat)
    requires i <= |s|
    ensures forall k :: i <= k < SkipSpaces(s, i) ==> IsSpace(s[k])
    decreases |s| - i
  {
    if i < |s| && IsSpace(s[i]) {
      SkipsSpaces(s, i + 1);
    }
  }

  lemma SpelledStarts(t: string, words: seq<string>)
    requires words != [] && Upright(words) && Spelled(t, words)
    ensures t != "" && !IsSpace(t[0])
  {
    var n := |words[0]|;
    var head := if |words| == 1 then t else t[..n];
    assert SameWord(head, words[0]) && head[0] == t[0];
  }

  /** The words end at j exactly when the stretch up to j spells them. */
  lemma {:induction false} WordsExactly(s: string, i: nat, words: seq<string>, j: nat)
    requires i <= j <= |s| && words != [] && Upright(words)
    ensures AfterWords(s, i, words) == j <==> Spelled(s[i..j], words)
    decreases |words|
  {
    var n, t := |words[0]|, s[i..j];
    WordHere(s, i, words[0]);
    if |words| > 1 && i + n <= |s| {
      var m := SkipSpaces(s, i + n);
      if m <= j {
        WordsExactly(s, m, words[1..], j);
      }
      if AfterWords(s, i, words) == j {
        SpellsMore(s, i, words, j);
      }
      if Spelled(t, words) {
        SpelledMore(s, i, words, j);
      }
    }
  }

  lemma SpelledOf(t: string, words: seq<string>, m: nat)
    requires |words| > 1 && |words[0]| < m <= |t| && SameWord(t[..|words[0]|], words[0])
    requires AllSpace(t[|words[0]|..m]) && Spelled(t[m..], words[1..])
    ensures Spelled(t, words)
  {
    hide SameWord, AllSpace;
  }

  lemma PartsOf(t: string, words: seq<string>) returns (m: nat)
    requires |words| > 1 && Spelled(t, words)
    ensures |words[0]| < m <= |t| && SameWord(t[..|words[0]|], words[0])
    ensures AllSpace(t[|words[0]|..m]) && Spelled(t[m..], words[1..])
  {
    hide SameWord, AllSpace;
    m :| |words[0]| < m <= |t| && AllSpace(t[|words[0]|..m]) && Spelled(t[m..], words[1..]);
  }

  lemma AfterStep(s: string, i: nat, words: seq<string>)
    requires |words| > 1 && i + |words[0]| <= |s|
    ensures var m := SkipSpaces(s, i + |words[0]|);
      AfterWords(s, i, words) ==
        if !WordAt(s, i, words[0]) || m == i + |words[0]| then -1 else AfterWords(s, m, words[1..])
  {
    hide WordAt, SkipSpaces;
  }

  lemma SpellsMore(s: string, i: nat, words: seq<string>, j: nat)
    requires i <= j <= |s| && |words| > 1 && i + |words[0]| <= |s|
    requires AfterWords(s, i, words) == j && SameWord(s[i..i + |words[0]|], words[0])
    requires var m := SkipSpaces(s, i + |words[0]|);
      m <= j && AfterWords(s, m, words[1..]) == j ==> Spelled(s[m..j], words[1..])
    ensures Spelled(s[i..j], words)
  {
    hide AfterWords, SkipSpaces, IsSpace, SameWord, Spelled, WordAt;
    var n := |words[0]|;
    var m := SkipSpaces(s, i + n);
    AfterStep(s, i, words);
    SkipsSpaces(s, i + n);
    AfterLater(s, m, words[1..]);
    Inner(s, i, j, 0, n);
    Inner(s, i, j, n, m - i);
    Inner(s, i, j, m - i, j - i);
    SpacesBetween(s, i + n, m);
    SpelledOf(s[i..j], words, m - i);
  }

  lemma Inner(s: string, i: nat, j: nat, a: nat, b: nat)
    requires i <= j <= |s| && a <= b <= j - i
    ensures s[i..j][a..b] == s[i + a..i + b]
    ensures b == j - i ==> s[i..j][a..] == s[i + a..j]
    ensures a == 0 ==> s[i..j][..b] == s[i..i + b]
  {
    var t := s[i..j];
    var u := t[a..b];
    forall k | 0 <= k < b - a ensures u[k] == s[i + a..i + b][k] {
      assert u[k] == t[a + k];
    }
    assert u == s[i + a..i + b];
    assert a == 0 ==> t[..b] == u;
    assert b == |t| ==> t[a..] == u;
  }

  lemma SpacesBetween(s: string, a: nat, b: nat)
    requires a <= b <= |s|
    ensures AllSpace(s[a..b]) <==> forall k :: a <= k < b ==> IsSpace(s[k])
  {
    hide IsSpace;
    var t := s[a..b];
    if AllSpace(t) {
      forall k | a <= k < b ensures IsSpace(s[k]) {
        assert t[k - a] == s[k];
      }
    } else {
      var k :| 0 <= k < |t| && !IsSpace(t[k]);
      assert s[a + k] == t[k];
    }
  }

  lemma SpelledMore(s: string, i: nat, words: seq<string>, j: nat)
    requires i <= j <= |s| && |words| > 1 && Upright(words) && i + |words[0]| <= |s|
    requires Spelled(s[i..j], words) && WordAt(s, i, words[0])
    requires var m := SkipSpaces(s, i + |words[0]|);
      m <= j && Spelled(s[m..j], words[1..]) ==> AfterWords(s, m, words[1..]) == j
    ensures AfterWords(s, i, words) == j
  {
    hide AfterWords, SkipSpaces, IsSpace, SameWord, Spelled, WordAt;
    var n, t := |words[0]|, s[i..j];
    var k := PartsOf(t, words);
    assert Upright(words[1..]);
    SpelledStarts(t[k..], words[1..]);
    Inner(s, i, j, n, k);
    Inner(s, i, j, k, j - i);
    SpacesBetween(s, i + n, i + k);
    assert t[k..][0] == s[i + k];
    SpacesSkipped(s, i + n, i + k);
    AfterStep(s, i, words);
  }

  lemma {:induction false} AfterLater(s: string, i: nat, words: seq<string>)
    requires i <= |s|
    ensures AfterWords(s, i, words) >= 0 ==> AfterWords(s, i, words) >= i
    decreases |words|
  {
    if words != [] && WordAt(s, i, words[0]) && |words| > 1 {
      var e := i + |words[0]|;
      AfterLater(s, SkipSpaces(s, e), words[1..]);
    }
  }

  /** The whole text is the words exactly when it spells them. */
  lemma IsWordsExactly(s: string, words: seq<string>)
    requires words != [] && Upright(words)
    ensures IsWords(s, words) <==> Spelled(s, words)
  {
    WordsExactly(s, 0, words, |s|);
    assert s[0..|s|] == s;
  }

  /** The stretch touches no word character on either side. */
  predicate Bounded(s: string, i: nat, j: nat)
    requires i <= j <= |s|
  {
    (i == 0 || !IsWordChar(s[i - 1])) && (j == |s| || !IsWordChar(s[j]))
  }

  /** The words stand in the text exactly when a stretch between word boundaries spells them. */
  lemma ContainsWordsExactly(s: string, words: seq<string>)
    requires words != [] && Upright(words)
    ensures ContainsWords(s, words) <==>
      exists i, j :: 0 <= i <= j <= |s| && Bounded(s, i, j) && Spelled(s[i..j], words)
  {
    forall i, j | 0 <= i <= j <= |s| ensures AfterWords(s, i, words) == j <==> Spelled(s[i..j], words) {
      WordsExactly(s, i, words, j);
    }
    hide Spelled, AfterWords;
    if ContainsWords(s, words) {
      var i :| 0 <= i < |s| && (i == 0 || !IsWordChar(s[i - 1]))
        && var e := AfterWords(s, i, words); 0 <= e && (e == |s| || !IsWordChar(s[e]));
      AfterLater(s, i, words);
      assert Spelled(s[i..AfterWords(s, i, words)], words);
    }
    if i, j :| 0 <= i <= j <= |s| && Bounded(s, i, j) && Spelled(s[i..j], words) {
      SpelledStarts(s[i..j], words);
      assert AfterWords(s, i, words) == j;
    }
  }
}
