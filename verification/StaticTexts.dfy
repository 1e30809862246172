/**
 The static string evaluator of scripts/check-refusal-census.ts on its call-free fragment, the
 run-time strings it speaks about, and the ordinal keys of its candidates. Syntax nodes are
 named by ids, which stand for a file and a source range.
 */
module StaticTexts {
  import opened Common

  datatype Span = Span(expression: nat, literal: string)

  datatype Node =
    | Literal(text: string)
    | NullKeyword
    | Wrapped(inner: nat)
    | Reference(initializer: Option<nat>)
    | Conditional(whenTrue: nat, whenFalse: nat)
    | Plus(left: nat, right: nat)
    | Template(head: string, spans: seq<Span>)
    | Opaque

  /** Nodes and the source text of each, as a hole shows it. */
  datatype Program = Program(nodes: map<nat, Node>, source: map<nat, string>)

  function NodeOf(p: Program, node: nat): Node {
    if node in p.nodes then p.nodes[node] else Opaque
  }

  /** A hole: the source text of an expression between dollar-brace and brace. */
  function Hole(p: Program, node: nat): string {
    "${" + (if node in p.source then p.source[node] else "") + "}"
  }

  // ----- the evaluator

  function Unique(values: seq<string>): (r: seq<string>)
    ensures forall v :: v in r <==> v in values
    ensures |values| == 1 ==> r == values
    ensures r == [] <==> values == []
  {
    if values == [] then []
    else
      var rest := Unique(values[..|values| - 1]);
      var last := values[|values| - 1];
      if last in rest then rest else rest + [last]
  }

  function Values(p: Program, node: nat, resolved: seq<string>): (r: seq<string>)
    ensures |r| == 1
  {
    if |resolved| == 1 then resolved else [Hole(p, node)]
  }

  function {:induction false} Appended(prefixes: seq<string>, values: seq<string>, literal: string): (r: seq<string>) {
    if prefixes == [] then []
    else
      seq(|values|, i requires 0 <= i < |values| => prefixes[0] + values[i] + literal)
      + Appended(prefixes[1..], values, literal)
  }

  function Unseen(p: Program, seen: set<nat>): nat {
    |p.nodes.Keys - seen|
  }

  lemma UnseenShrinks(p: Program, seen: set<nat>, node: nat)
    requires node in p.nodes && node !in seen
    ensures Unseen(p, seen + {node}) < Unseen(p, seen)
  {
    assert p.nodes.Keys - seen == (p.nodes.Keys - (seen + {node})) + {node};
  }

  function Resolve(p: Program, node: nat, seen: set<nat>): seq<string>
    decreases Unseen(p, seen), 0
  {
    if node !in p.nodes || node in seen then []
    else
      UnseenShrinks(p, seen, node);
      var next := seen + {node};
      match p.nodes[node]
      case Literal(text) => [text]
      case Wrapped(inner) => Resolve(p, inner, next)
      case Reference(Some(initializer)) => Resolve(p, initializer, next)
      case Conditional(whenTrue, whenFalse) =>
        var t := Resolve(p, whenTrue, next);
        var f := Resolve(p, whenFalse, next);
        if NodeOf(p, whenTrue).NullKeyword? then f
        else if NodeOf(p, whenFalse).NullKeyword? then t
        else if |t| > 0 && |f| > 0 then Unique(t + f) else []
      case Plus(left, right) =>
        Unique(Appended(Values(p, left, Resolve(p, left, next)), Values(p, right, Resolve(p, right, next)), ""))
      case Template(head, spans) => Unique(Rendered(p, head, spans, next))
      case _ => []
  }

  /** A template rendered up to its last span. */
  function Rendered(p: Program, head: string, spans: seq<Span>, seen: set<nat>): seq<string>
    decreases Unseen(p, seen), 1, |spans|
  {
    if spans == [] then [head]
    else
      var last := spans[|spans| - 1];
      Appended(Rendered(p, head, spans[..|spans| - 1], seen),
               Values(p, last.expression, Resolve(p, last.expression, seen)), last.literal)
  }

  /** `resolveStaticTexts`: recursion over the expression with a copied set of visited nodes. */
  method ResolveStaticTexts(p: Program, node: nat, seen: set<nat>) returns (texts: seq<string>)
    ensures texts == Resolve(p, node, seen)
    decreases Unseen(p, seen)
  {
    hide Unique, Appended, Hole, Values, Unseen;
    if node !in p.nodes || node in seen { return []; }
    UnseenShrinks(p, seen, node);
    var nextSeen := seen + {node};
    match p.nodes[node] {
      case Literal(text) => texts := [text];
      case Wrapped(inner) => texts := ResolveStaticTexts(p, inner, nextSeen);
      case Reference(Some(initializer)) => texts := ResolveStaticTexts(p, initializer, nextSeen);
      case Conditional(whenTrue, whenFalse) =>
        var t := ResolveStaticTexts(p, whenTrue, nextSeen);
        var f := ResolveStaticTexts(p, whenFalse, nextSeen);
        if NodeOf(p, whenTrue).NullKeyword? { return f; }
        if NodeOf(p, whenFalse).NullKeyword? { return t; }
        texts := if |t| > 0 && |f| > 0 then Unique(t + f) else [];
      case Plus(left, right) =>
        var l := ResolveStaticTexts(p, left, nextSeen);
        var r := ResolveStaticTexts(p, right, nextSeen);
        texts := Unique(Appended(Values(p, left, l), Values(p, right, r), ""));
      case Template(head, spans) =>
        var rendered := [head];
        var k := 0;
        assert spans[..0] == [];
        while k < |spans|
          invariant 0 <= k <= |spans|
          invariant rendered == Rendered(p, head, spans[..k], nextSeen)
        {
          var resolved := ResolveStaticTexts(p, spans[k].expression, nextSeen);
          assert spans[..k + 1][..k] == spans[..k];
          rendered := Appended(rendered, Values(p, spans[k].expression, resolved), spans[k].literal);
          k := k + 1;
        }
        assert spans[..k] == spans;
        texts := Unique(rendered);
      case _ => texts := [];
    }
  }

  // ----- the run time

  /** A value: a string, or something else that string concatenation turns into `text`. */
  datatype Value = Str(text: string) | NotStr(text: string)

  const NULL := NotStr("null")

  /** What a run decides: which arm each conditional takes, and what each opaque node is. */
  datatype World = World(takes: nat -> bool, value: nat -> Value)

  /** The value of a node when evaluation ends within `fuel` steps; a cyclic constant has none. */
  function Eval(p: Program, w: World, node: nat, fuel: nat): Option<Value>
    decreases fuel, 0
  {
    if fuel == 0 then None
    else
      match NodeOf(p, node)
      case Literal(text) => Some(Str(text))
      case NullKeyword => Some(NULL)
      case Wrapped(inner) => Eval(p, w, inner, fuel - 1)
      case Reference(Some(initializer)) => Eval(p, w, initializer, fuel - 1)
      case Reference(None) => Some(w.value(node))
      case Conditional(whenTrue, whenFalse) => Eval(p, w, if w.takes(node) then whenTrue else whenFalse, fuel - 1)
      case Plus(left, right) =>
        var l := Eval(p, w, left, fuel - 1);
        var r := Eval(p, w, right, fuel - 1);
        if l.None? || r.None? then None else Some(Str(l.value.text + r.value.text))
      case Template(head, spans) => EvalSpans(p, w, head, spans, fuel - 1)
      case Opaque => Some(w.value(node))
  }

  function EvalSpans(p: Program, w: World, head: string, spans: seq<Span>, fuel: nat): (r: Option<Value>)
    ensures r.Some? ==> r.value.Str?
    decreases fuel, 1, |spans|
  {
    if spans == [] then Some(Str(head))
    else
      var last := spans[|spans| - 1];
      var before := EvalSpans(p, w, head, spans[..|spans| - 1], fuel);
      var value := Eval(p, w, last.expression, fuel);
      if before.None? || value.None? then None else Some(Str(before.value.text + value.value.text + last.literal))
  }

  /** The parts of a concatenation: the operands of plus and the spans of a template. */
  predicate OperandOf(parent: Node, node: nat) {
    match parent
    case Plus(left, right) => node == left || node == right
    case Template(_, spans) => exists i | 0 <= i < |spans| :: spans[i].expression == node
    case _ => false
  }

  ghost predicate IsOperand(p: Program, node: nat) {
    exists parent :: parent in p.nodes && OperandOf(p.nodes[parent], node)
  }

  lemma AppendedToOne(prefix: string, value: string, literal: string)
    ensures Appended([prefix], [value], literal) == [prefix + value + literal]
  {
    assert [prefix][1..] == [];
  }

  lemma RenderedStep(p: Program, head: string, spans: seq<Span>, seen: set<nat>)
    ensures spans == [] ==> Rendered(p, head, spans, seen) == [head]
    ensures spans != [] ==>
      var last := spans[|spans| - 1];
      Rendered(p, head, spans, seen)
        == Appended(Rendered(p, head, spans[..|spans| - 1], seen),
                    Values(p, last.expression, Resolve(p, last.expression, seen)), last.literal)
  {
  }

  lemma EvalSpansStep(p: Program, w: World, head: string, spans: seq<Span>, fuel: nat)
    requires EvalSpans(p, w, head, spans, fuel).Some?
    ensures spans == [] ==> EvalSpans(p, w, head, spans, fuel) == Some(Str(head))
    ensures spans != [] ==>
      var last := spans[|spans| - 1];
      var before := EvalSpans(p, w, head, spans[..|spans| - 1], fuel);
      var value := Eval(p, w, last.expression, fuel);
      before.Some? && value.Some?
      && EvalSpans(p, w, head, spans, fuel).value.text == before.value.text + value.value.text + last.literal
  {
  }

  lemma ConditionalStep(p: Program, node: nat, seen: set<nat>)
    requires node in p.nodes && node !in seen && p.nodes[node].Conditional?
    ensures var t := Resolve(p, p.nodes[node].whenTrue, seen + {node});
      var f := Resolve(p, p.nodes[node].whenFalse, seen + {node});
      Resolve(p, node, seen) ==
        if NodeOf(p, p.nodes[node].whenTrue).NullKeyword? then f
        else if NodeOf(p, p.nodes[node].whenFalse).NullKeyword? then t
        else if |t| > 0 && |f| > 0 then Unique(t + f) else []
  {
  }

  // ----- ordinal keys

  function Decimal(n: nat): (r: string)
    ensures r != "" && forall c :: c in r ==> '0' <= c <= '9'
  {
    var digit := '0' + (n % 10) as char;
    if n < 10 then [digit] else Decimal(n / 10) + [digit]
  }

  lemma {:induction false} DecimalInjective(a: nat, b: nat)
    requires Decimal(a) == Decimal(b)
    ensures a == b
    decreases a
  {
    var da, db := Decimal(a), Decimal(b);
    assert da[|da| - 1] == '0' + (a % 10) as char && db[|db| - 1] == '0' + (b % 10) as char;
    assert a % 10 == b % 10;
    assert (a >= 10 <==> |da| >= 2) && (b >= 10 <==> |db| >= 2);
    if a >= 10 {
      assert da[..|da| - 1] == Decimal(a / 10) && db[..|db| - 1] == Decimal(b / 10);
      DecimalInjective(a / 10, b / 10);
    }
  }

  lemma NoColon(n: nat, k: nat)
    requires k < |Decimal(n)|
    ensures Decimal(n)[k] != ':'
  {
    assert Decimal(n)[k] in Decimal(n);
  }

  function Key(expression: string, ordinal: nat): string {
    expression + "::" + Decimal(ordinal)
  }

  /** Digits hold no colon, so a key splits in one way only. */
  lemma KeyInjective(a: string, i: nat, b: string, j: nat)
    requires Key(a, i) == Key(b, j)
    ensures a == b && i == j
  {
    var key, da, db := Key(a, i), Decimal(i), Decimal(j);
    var n := |key|;
    assert key[n - |da|..] == da && key[n - |db|..] == db;
    assert key[n - |da| - 1] == ':' && key[n - |db| - 1] == ':';
    assert |da| < |db| ==> db[|db| - |da| - 1] == key[n - |da| - 1];
    assert |db| < |da| ==> da[|da| - |db| - 1] == key[n - |db| - 1];
    if |da| < |db| {
      NoColon(j, |db| - |da| - 1);
    } else if |db| < |da| {
      NoColon(i, |da| - |db| - 1);
    }
    assert key[..n - |da| - 2] == a && key[..n - |db| - 2] == b;
    DecimalInjective(i, j);
  }

  function Count(expressions: seq<string>, expression: string): nat {
    if expressions == [] then 0
    else
      Count(expressions[..|expressions| - 1], expression)
      + (if expressions[|expressions| - 1] == expression then 1 else 0)
  }

  /** The k-th candidate's key: its expression and how often the expression occurred so far. */
  function KeyAt(expressions: seq<string>, k: nat): string
    requires k < |expressions|
  {
    Key(expressions[k], Count(expressions[..k + 1], expressions[k]))
  }

  lemma {:induction false} CountGrows(expressions: seq<string>, i: nat, k: nat)
    requires i < k < |expressions| && expressions[i] == expressions[k]
    ensures Count(expressions[..i + 1], expressions[k]) < Count(expressions[..k + 1], expressions[k])
  {
    CountMonotone(expressions, i + 1, k, expressions[k]);
    assert expressions[..k + 1][..k] == expressions[..k];
  }

  lemma {:induction false} CountMonotone(expressions: seq<string>, i: nat, k: nat, expression: string)
    requires i <= k <= |expressions|
    ensures Count(expressions[..i], expression) <= Count(expressions[..k], expression)
    decreases k
  {
    if i < k {
      CountMonotone(expressions, i, k - 1, expression);
      assert expressions[..k][..k - 1] == expressions[..k - 1];
    }
  }

  /** The last step of `scanCandidates`: every candidate gets a key of its own. */
  method OrdinalKeys(expressions: seq<string>) returns (keys: seq<string>)
    ensures |keys| == |expressions| && forall k :: 0 <= k < |keys| ==> keys[k] == KeyAt(expressions, k)
    ensures forall i, k :: 0 <= i < k < |keys| ==> keys[i] != keys[k]
  {
    keys := [];
    var seen: map<string, nat> := map[];
    var k := 0;
    while k < |expressions|
      invariant 0 <= k <= |expressions| && |keys| == k
      invariant forall e :: (if e in seen then seen[e] else 0) == Count(expressions[..k], e)
      invariant forall i :: 0 <= i < k ==> keys[i] == KeyAt(expressions, i)
    {
      var e := expressions[k];
      assert expressions[..k + 1][..k] == expressions[..k];
      var ordinal := (if e in seen then seen[e] else 0) + 1;
      seen := seen[e := ordinal];
      keys := keys + [Key(e, ordinal)];
      k := k + 1;
    }
    forall i, j | 0 <= i < j < |keys| ensures keys[i] != keys[j] {
      KeysDiffer(expressions, i, j);
    }
  }

  lemma KeysDiffer(expressions: seq<string>, i: nat, j: nat)
    requires i < j < |expressions|
    ensures KeyAt(expressions, i) != KeyAt(expressions, j)
  {
    hide Key;
    if KeyAt(expressions, i) == KeyAt(expressions, j) {
      KeyInjective(expressions[i], Count(expressions[..i + 1], expressions[i]),
                   expressions[j], Count(expressions[..j + 1], expressions[j]));
      CountGrows(expressions, i, j);
    }
  }
}
