/** The credential patterns of src/credential-safety.ts. Their case folding is that of ASCII letters. */
module CredentialText {
  import opened Common

  const REDACTION := "[redacted: this " + "text contained a " + "resident credential]"
  const WITHHELD :=
    "The city withheld " + "a response that " + "contained a " + "resident credential" + ". The read was " + "stopped."

  const PREFIX := "1f3d9_"

  datatype Kind = ResidentKey | AccessToken | RefreshToken | AuthorizationCode | RecoveryCode | PairingCode

  function Fold(c: char): char {
    if 'A' <= c <= 'Z' then c - 'A' + 'a' else c
  }

  predicate IsHex(c: char) {
    '0' <= c <= '9' || 'a' <= Fold(c) <= 'f'
  }

  predicate HexRun(s: string, at: nat, n: nat) {
    at + n <= |s| && forall k | at <= k < at + n :: IsHex(s[k])
  }

  function KindOf(a: char, b: char): Option<Kind> {
    var letters := [Fold(a), Fold(b)];
    if letters == "sk" then Some(ResidentKey)
    else if letters == "at" then Some(AccessToken)
    else if letters == "rt" then Some(RefreshToken)
    else if letters == "rc" then Some(RecoveryCode)
    else if letters == "pc" then Some(PairingCode)
    else if letters == "ac" then Some(AuthorizationCode)
    else None
  }

  /** The kind announced at a position: the prefix, two letters and an underscore. */
  function Announced(s: string, at: nat): Option<Kind> {
    if at + 9 <= |s| && (forall k | 0 <= k < 6 :: Fold(s[at + k]) == PREFIX[k]) && s[at + 8] == '_'
    then KindOf(s[at + 6], s[at + 7]) else None
  }

  /** Something that looks like a credential: at least eight hex digits follow. */
  predicate LikeAt(s: string, at: nat) {
    Announced(s, at).Some? && HexRun(s, at + 9, 8)
  }

  /** `containsPublicCredential` on text */
  predicate Contains(s: string) {
    exists at | 0 <= at < |s| :: LikeAt(s, at)
  }

  function Digits(kind: Kind): nat {
    if kind.ResidentKey? then 48 else 64
  }

  /** The length of the exact credential at a position. */
  function ExactLength(s: string, at: nat): (n: Option<nat>)
    ensures n.Some? ==> at + n.value <= |s| && n.value >= 57 && LikeAt(s, at)
  {
    var kind := Announced(s, at);
    if kind.Some? && HexRun(s, at + 9, Digits(kind.value)) then
      assert forall k :: at + 9 <= k < at + 17 ==> IsHex(s[k]);
      Some(9 + Digits(kind.value))
    else None
  }

  /** A token and its kind; `classifyResidentCredential` reads the same letters. */
  datatype Match = Match(token: string, kind: Kind)

  /** `extractResidentCredentials` from a position on: matches from left to right, without overlap. */
  function Extract(s: string, at: nat): seq<Match>
    decreases |s| - at
  {
    if at >= |s| then []
    else
      var n := ExactLength(s, at);
      if n.Some? then [Match(s[at..at + n.value], Announced(s, at).value)] + Extract(s, at + n.value)
      else Extract(s, at + 1)
  }

  lemma CredentialHasOne(s: string, at: nat)
    requires at < |s| && LikeAt(s, at)
    ensures '1' in s
  {
    assert Fold(s[at + 0]) == PREFIX[0];
    assert s[at] == '1';
  }

  predicate NoOne(s: string) {
    '1' !in s
  }

  lemma NoOneIn(a: string, b: string)
    requires NoOne(a) && NoOne(b)
    ensures NoOne(a + b)
  {
  }

  lemma NoOneInRedaction()
    ensures NoOne(REDACTION)
  {
    var a, b, c := "[redacted: this ", "text contained a ", "resident credential]";
    assert NoOne(a);
    assert NoOne(b);
    assert NoOne(c);
    NoOneIn(a, b);
    NoOneIn(a + b, c);
  }

  lemma NoOneInWithheld()
    ensures NoOne(WITHHELD)
  {
    var a, b, c := "The city withheld ", "a response that ", "contained a ";
    var d, e, f := "resident credential", ". The read was ", "stopped.";
    assert NoOne(a);
    assert NoOne(b);
    assert NoOne(c);
    assert NoOne(d);
    assert NoOne(e);
    assert NoOne(f);
    NoOneIn(a, b);
    NoOneIn(a + b, c);
    NoOneIn(a + b + c, d);
    NoOneIn(a + b + c + d, e);
    NoOneIn(a + b + c + d + e, f);
  }

  lemma NoticesAreClean()
    ensures !Contains(REDACTION) && !Contains(WITHHELD)
  {
    NoOneInRedaction();
    NoOneInWithheld();
    hide Contains;
    NoOneNoCredential(REDACTION);
    NoOneNoCredential(WITHHELD);
  }

  lemma NoOneNoCredential(s: string)
    requires NoOne(s)
    ensures !Contains(s)
  {
    if Contains(s) {
      var at :| 0 <= at < |s| && LikeAt(s, at);
      CredentialHasOne(s, at);
    }
  }

  lemma {:induction false} ExtractFinds(s: string, at: nat)
    ensures Extract(s, at) == [] <==> forall i :: at <= i < |s| ==> ExactLength(s, i).None?
    decreases |s| - at
  {
    if at < |s| && ExactLength(s, at).None? {
      ExtractFinds(s, at + 1);
    }
  }

  /** Text without a credential-like part has no exact credential: a filter on the former loses none of the latter. */
  lemma CleanTextHasNoMatch(s: string)
    requires !Contains(s)
    ensures Extract(s, 0) == []
  {
    ExtractFinds(s, 0);
  }

  /** Extraction finds something exactly when an exact credential occurs anywhere. */
  lemma ExtractIsEmptyExactly(s: string)
    ensures Extract(s, 0) != [] <==> exists i :: 0 <= i < |s| && ExactLength(s, i).Some?
  {
    ExtractFinds(s, 0);
  }

  /** What is extracted is an exact credential of its kind, and nothing more. */
  lemma {:induction false} MatchesAreExact(s: string, at: nat, k: nat)
    requires k < |Extract(s, at)|
    ensures var m := Extract(s, at)[k];
      ExactLength(m.token, 0) == Some(|m.token|) && Announced(m.token, 0) == Some(m.kind) && Contains(m.token)
    decreases |s| - at
  {
    var n := ExactLength(s, at);
    if n.None? {
      MatchesAreExact(s, at + 1, k);
    } else if k > 0 {
      MatchesAreExact(s, at + n.value, k - 1);
    } else {
      var token := s[at..at + n.value];
      assert forall i :: 0 <= i < |token| ==> token[i] == s[at + i];
      assert Announced(token, 0) == Announced(s, at);
      assert HexRun(token, 9, n.value - 9);
      assert LikeAt(token, 0);
    }
  }

  // ----- what a credential looks like, letter by letter

  /** Both cases of the two letters that announce a kind. */
  predicate Letters(a: char, b: char, kind: Kind) {
    match kind
    case ResidentKey => a in "sS" && b in "kK"
    case AccessToken => a in "aA" && b in "tT"
    case RefreshToken => a in "rR" && b in "tT"
    case AuthorizationCode => a in "aA" && b in "cC"
    case RecoveryCode => a in "rR" && b in "cC"
    case PairingCode => a in "pP" && b in "cC"
  }

  /** A token: 1f3d9, underscore, the kind's two letters, underscore, and n hex digits, in any case. */
  predicate IsToken(t: string, kind: Kind, n: nat) {
    && |t| == 9 + n
    && t[0] == '1' && t[1] in "fF" && t[2] == '3' && t[3] in "dD" && t[4] == '9' && t[5] == '_'
    && Letters(t[6], t[7], kind) && t[8] == '_'
    && forall k | 9 <= k < |t| :: '0' <= t[k] <= '9' || 'a' <= t[k] <= 'f' || 'A' <= t[k] <= 'F'
  }

  lemma AnnouncedExactly(s: string, at: nat)
    requires at + 9 <= |s|
    ensures forall kind :: Announced(s, at) == Some(kind) <==>
      && s[at] == '1' && s[at + 1] in "fF" && s[at + 2] == '3' && s[at + 3] in "dD"
      && s[at + 4] == '9' && s[at + 5] == '_'
      && Letters(s[at + 6], s[at + 7], kind) && s[at + 8] == '_'
  {
    PrefixExactly(s, at);
    forall kind ensures KindOf(s[at + 6], s[at + 7]) == Some(kind) <==> Letters(s[at + 6], s[at + 7], kind) {
      KindExactly(s[at + 6], s[at + 7], kind);
    }
    hide KindOf, Letters, Fold;
  }

  lemma PrefixExactly(s: string, at: nat)
    requires at + 9 <= |s|
    ensures (forall k | 0 <= k < 6 :: Fold(s[at + k]) == PREFIX[k]) <==>
      s[at] == '1' && s[at + 1] in "fF" && s[at + 2] == '3' && s[at + 3] in "dD"
      && s[at + 4] == '9' && s[at + 5] == '_'
  {
    assert PREFIX[0] == '1' && PREFIX[1] == 'f' && PREFIX[2] == '3';
    assert PREFIX[3] == 'd' && PREFIX[4] == '9' && PREFIX[5] == '_';
    if forall k | 0 <= k < 6 :: Fold(s[at + k]) == PREFIX[k] {
      assert Fold(s[at + 0]) == '1' && Fold(s[at + 1]) == 'f' && Fold(s[at + 2]) == '3';
      assert Fold(s[at + 3]) == 'd' && Fold(s[at + 4]) == '9' && Fold(s[at + 5]) == '_';
    }
  }

  lemma KindExactly(a: char, b: char, kind: Kind)
    ensures KindOf(a, b) == Some(kind) <==> Letters(a, b, kind)
  {
    TwoLetters(Fold(a), Fold(b), "sk");
    TwoLetters(Fold(a), Fold(b), "at");
    TwoLetters(Fold(a), Fold(b), "rt");
    TwoLetters(Fold(a), Fold(b), "rc");
    TwoLetters(Fold(a), Fold(b), "pc");
    TwoLetters(Fold(a), Fold(b), "ac");
  }

  lemma TwoLetters(x: char, y: char, letters: string)
    requires |letters| == 2
    ensures [x, y] == letters <==> x == letters[0] && y == letters[1]
  {
  }

  /** A token with n digits stands at the position. */
  predicate Stands(s: string, at: nat, kind: Kind, n: nat) {
    at + 9 + n <= |s| && IsToken(s[at..at + 9 + n], kind, n)
  }

  lemma TokenHere(s: string, at: nat, kind: Kind, n: nat)
    ensures Announced(s, at) == Some(kind) && HexRun(s, at + 9, n) <==> Stands(s, at, kind, n)
  {
    if at + 9 + n <= |s| {
      AnnouncedExactly(s, at);
      var t := s[at..at + 9 + n];
      assert forall k :: 0 <= k < |t| ==> t[k] == s[at + k];
      if IsToken(t, kind, n) {
        forall k | at + 9 <= k < at + 9 + n ensures IsHex(s[k]) {
          assert t[k - at] == s[k];
        }
      }
    }
  }

  /** Something is like a credential exactly when a token with eight digits stands there. */
  lemma LikeExactly(s: string, at: nat)
    ensures LikeAt(s, at) <==> exists kind :: Stands(s, at, kind, 8)
  {
    forall kind ensures Announced(s, at) == Some(kind) && HexRun(s, at + 9, 8) <==> Stands(s, at, kind, 8) {
      TokenHere(s, at, kind, 8);
    }
    hide Stands, Announced, HexRun;
    if LikeAt(s, at) {
      assert Stands(s, at, Announced(s, at).value, 8);
    }
  }

  /** And it is one exactly when its kind's number of digits follow: 48 for a resident's key, 64 for the others. */
  lemma TokenExactly(s: string, at: nat, kind: Kind)
    ensures var n := if kind == ResidentKey then 48 else 64;
      (ExactLength(s, at) == Some(9 + n) && Announced(s, at) == Some(kind)) <==> Stands(s, at, kind, n)
  {
    TokenHere(s, at, kind, if kind == ResidentKey then 48 else 64);
    hide Stands, Announced, HexRun;
  }

  // ----- every credential is extracted or overlaps one that is

  /** Where the extracted tokens start. */
  function Starts(s: string, at: nat): seq<nat>
    decreases |s| - at
  {
    if at >= |s| then []
    else
      var n := ExactLength(s, at);
      if n.Some? then [at] + Starts(s, at + n.value) else Starts(s, at + 1)
  }

  /** The k-th match is the token at the k-th start. */
  ghost predicate MatchesAt(s: string, start: nat, m: Match) {
    && ExactLength(s, start).Some? && start + ExactLength(s, start).value <= |s|
    && m.token == s[start..start + ExactLength(s, start).value] && Announced(s, start) == Some(m.kind)
  }

  /** The position lies inside one of the extracted tokens. */
  ghost predicate Covered(s: string, at: nat, i: nat) {
    exists k :: 0 <= k < |Starts(s, at)| && ExactLength(s, Starts(s, at)[k]).Some?
      && Starts(s, at)[k] <= i < Starts(s, at)[k] + ExactLength(s, Starts(s, at)[k]).value
  }

  lemma CoveredLater(s: string, at: nat, next: nat, i: nat)
    requires Starts(s, at) == [at] + Starts(s, next) && Covered(s, next, i)
    ensures Covered(s, at, i)
  {
    hide Starts, ExactLength;
    var rest := Starts(s, next);
    var k :| 0 <= k < |rest| && ExactLength(s, rest[k]).Some?
      && rest[k] <= i < rest[k] + ExactLength(s, rest[k]).value;
    assert Starts(s, at)[k + 1] == rest[k];
  }

  /**
   Extraction goes from left to right and misses no credential but those that start inside the one
   before: every position where a credential stands lies in an extracted token.
   */
  lemma {:induction false} ExtractMissesNone(s: string, at: nat, i: nat)
    requires at <= i < |s| && ExactLength(s, i).Some?
    ensures Covered(s, at, i)
    decreases |s| - at
  {
    var n := ExactLength(s, at);
    NextStart(s, at);
    hide ExactLength;
    if n.Some? {
      if i < at + n.value {
        assert Starts(s, at)[0] == at;
      } else {
        ExtractMissesNone(s, at + n.value, i);
        CoveredLater(s, at, at + n.value, i);
      }
    } else {
      ExtractMissesNone(s, at + 1, i);
    }
  }

  lemma NextStart(s: string, at: nat)
    requires at < |s|
    ensures var n := ExactLength(s, at);
      && Starts(s, at) == (if n.Some? then [at] + Starts(s, at + n.value) else Starts(s, at + 1))
      && Extract(s, at) ==
        (if n.Some? then [Match(s[at..at + n.value], Announced(s, at).value)] + Extract(s, at + n.value)
         else Extract(s, at + 1))
      && (n.Some? ==> n.value > 0 && at + n.value <= |s| && Announced(s, at).Some?)
  {
    hide Announced, HexRun;
  }

  /** The matches are the tokens at these starts, from `at` on and without overlap. */
  ghost predicate Placed(s: string, at: nat, starts: seq<nat>, found: seq<Match>)
    decreases |starts|
  {
    && |starts| == |found|
    && (starts != [] ==>
         && at <= starts[0] && MatchesAt(s, starts[0], found[0])
         && Placed(s, starts[0] + |found[0].token|, starts[1..], found[1..]))
  }

  lemma {:induction false} ExtractedAtStarts(s: string, at: nat)
    ensures Placed(s, at, Starts(s, at), Extract(s, at))
    decreases |s| - at
  {
    if at < |s| {
      var n := ExactLength(s, at);
      NextStart(s, at);
      hide ExactLength, Announced, Starts, Extract;
      if n.Some? {
        ExtractedAtStarts(s, at + n.value);
        var found := Extract(s, at);
        assert Starts(s, at)[1..] == Starts(s, at + n.value) && found[1..] == Extract(s, at + n.value);
        assert MatchesAt(s, at, found[0]) && |found[0].token| == n.value;
      } else {
        ExtractedAtStarts(s, at + 1);
      }
    }
  }
}
