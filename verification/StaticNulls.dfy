/**
 Concatenations of literals and nullable conditionals, of any shape and size: exactly when the
 static evaluator is right about them in every run.
 */
module StaticNulls {
  import opened Common
  import opened StaticTexts
  import opened StaticForms

  /** A ranking of nodes, by which an expression without cycles descends. */
  type Rank = nat -> nat

  /** A conditional between null and a literal. */
  predicate Nullable(p: Program, node: nat) {
    && NodeOf(p, node).Conditional?
    && var t, f := NodeOf(p, NodeOf(p, node).whenTrue), NodeOf(p, NodeOf(p, node).whenFalse);
       (t.NullKeyword? && f.Literal?) || (t.Literal? && f.NullKeyword?)
  }

  /** The arm that is not null. */
  function OtherArm(p: Program, node: nat): nat
    requires Nullable(p, node)
  {
    var c := NodeOf(p, node);
    if NodeOf(p, c.whenTrue).NullKeyword? then c.whenFalse else c.whenTrue
  }

  function OtherText(p: Program, node: nat): string
    requires Nullable(p, node)
  {
    NodeOf(p, OtherArm(p, node)).text
  }

  /** Whether a conditional that is taken is null. */
  predicate NullWhenTaken(p: Program, node: nat)
    requires Nullable(p, node)
  {
    NodeOf(p, NodeOf(p, node).whenTrue).NullKeyword?
  }

  predicate IsNull(p: Program, w: World, node: nat)
    requires Nullable(p, node)
  {
    w.takes(node) == NullWhenTaken(p, node)
  }

  /** Literals and nullable conditionals, joined by plus, templates, parentheses and constants. */
  ghost predicate Tree(p: Program, rank: Rank, node: nat)
    decreases rank(node)
  {
    node in p.nodes &&
    match p.nodes[node]
    case Literal(_) => true
    case Wrapped(inner) => rank(inner) < rank(node) && Tree(p, rank, inner)
    case Reference(Some(initializer)) => rank(initializer) < rank(node) && Tree(p, rank, initializer)
    case Conditional(whenTrue, whenFalse) =>
      Nullable(p, node) && rank(whenTrue) < rank(node) && rank(whenFalse) < rank(node)
    case Plus(left, right) =>
      rank(left) < rank(node) && rank(right) < rank(node) && Tree(p, rank, left) && Tree(p, rank, right)
    case Template(_, spans) =>
      forall i :: 0 <= i < |spans| ==> rank(spans[i].expression) < rank(node) && Tree(p, rank, spans[i].expression)
    case _ => false
  }

  ghost predicate SpanTrees(p: Program, rank: Rank, limit: nat, spans: seq<Span>) {
    forall i :: 0 <= i < |spans| ==> rank(spans[i].expression) < limit && Tree(p, rank, spans[i].expression)
  }

  /** The text a run gives a tree. */
  ghost function Text(p: Program, rank: Rank, node: nat, w: World): string
    requires Tree(p, rank, node)
    decreases rank(node) + 1, 0
  {
    match p.nodes[node]
    case Literal(text) => text
    case Wrapped(inner) => Text(p, rank, inner, w)
    case Reference(Some(initializer)) => Text(p, rank, initializer, w)
    case Conditional(_, _) => if IsNull(p, w, node) then "null" else OtherText(p, node)
    case Plus(left, right) => Text(p, rank, left, w) + Text(p, rank, right, w)
    case Template(head, spans) => SpanText(p, rank, rank(node), head, spans, w)
  }

  ghost function SpanText(p: Program, rank: Rank, limit: nat, head: string, spans: seq<Span>, w: World): string
    requires SpanTrees(p, rank, limit, spans)
    decreases limit, |spans|
  {
    if spans == [] then head
    else
      var last := spans[|spans| - 1];
      SpanText(p, rank, limit, head, spans[..|spans| - 1], w) + Text(p, rank, last.expression, w) + last.literal
  }

  /** The run that never takes a null arm. */
  ghost function NoNulls(p: Program): World {
    World((n: nat) => Nullable(p, n) && !NullWhenTaken(p, n), (_: nat) => NULL)
  }

  /** The run that takes one null arm only. */
  ghost function OneNull(p: Program, c: nat): World {
    World((n: nat) => Nullable(p, n) && (if n == c then NullWhenTaken(p, n) else !NullWhenTaken(p, n)),
          (_: nat) => NULL)
  }

  // ----- what the evaluator makes of a tree

  ghost predicate Above(rank: Rank, seen: set<nat>, node: nat) {
    forall n :: n in seen ==> rank(n) > rank(node)
  }

  ghost predicate Literally(form: Form) {
    forall i :: 0 <= i < |form| ==> form[i].Lit?
  }

  /** Exactly one text and one form, which has no gap. */
  ghost predicate Only(p: Program, texts: seq<string>, forms: seq<Form>, text: string) {
    texts == [text] && |forms| == 1 && Literally(forms[0]) && RenderOf(p, forms[0]) == text
  }

  lemma {:induction false} LiterallyMatches(p: Program, form: Form, s: string, fill: Filler)
    requires Literally(form)
    ensures Matches(form, s, fill) <==> s == RenderOf(p, form)
    decreases |form|
  {
    if form != [] {
      var text := form[0].text;
      if text <= s {
        LiterallyMatches(p, form[1..], s[|text|..], fill);
        assert s == text + s[|text|..];
      }
    }
  }

  lemma OneProduct(p: Program, a: seq<Form>, b: seq<Form>, tail: Form, s: string, t: string)
    requires |a| == 1 && Literally(a[0]) && RenderOf(p, a[0]) == s
    requires |b| == 1 && Literally(b[0]) && RenderOf(p, b[0]) == t
    requires Literally(tail)
    ensures var products := Products(a, b, tail);
      |products| == 1 && Literally(products[0]) && RenderOf(p, products[0]) == s + t + RenderOf(p, tail)
  {
    assert a[1..] == [];
    RenderAppend(p, a[0], b[0]);
    RenderAppend(p, a[0] + b[0], tail);
    assert Products(a, b, tail) == [a[0] + b[0] + tail] + [];
  }

  lemma OperandOnly(p: Program, node: nat, seen: set<nat>, text: string)
    requires Only(p, Resolve(p, node, seen), Forms(p, node, seen), text)
    ensures Only(p, Values(p, node, Resolve(p, node, seen)), OperandForms(p, node, seen), text)
  {
    hide Resolve, Forms, RenderOf;
  }

  /** A tree resolves to the one text of the run without nulls, and that text has no gap. */
  lemma {:induction false} TreeResolves(p: Program, rank: Rank, node: nat, seen: set<nat>)
    requires Tree(p, rank, node) && Above(rank, seen, node)
    ensures Only(p, Resolve(p, node, seen), Forms(p, node, seen), Text(p, rank, node, NoNulls(p)))
    decreases rank(node) + 1, 0
  {
    var next := seen + {node};
    match p.nodes[node]
    case Literal(text) => LitRenders(p, text);
    case Wrapped(inner) => TreeResolves(p, rank, inner, next);
    case Reference(Some(initializer)) => TreeResolves(p, rank, initializer, next);
    case Conditional(_, _) => NullableResolves(p, rank, node, seen);
    case Plus(left, right) =>
      TreeResolves(p, rank, left, next);
      TreeResolves(p, rank, right, next);
      PlusResolves(p, rank, node, seen);
    case Template(head, spans) =>
      SpansResolve(p, rank, rank(node), head, spans, next);
      TemplateResolves(p, rank, node, seen);
  }

  lemma NullableResolves(p: Program, rank: Rank, node: nat, seen: set<nat>)
    requires Tree(p, rank, node) && Above(rank, seen, node) && p.nodes[node].Conditional?
    ensures Only(p, Resolve(p, node, seen), Forms(p, node, seen), OtherText(p, node))
  {
    var arm := OtherArm(p, node);
    var next := seen + {node};
    ConditionalStep(p, node, seen);
    ConditionalForms(p, node, seen);
    assert arm in p.nodes && p.nodes[arm].Literal? && arm !in next;
    LitRenders(p, OtherText(p, node));
    assert Resolve(p, arm, next) == [OtherText(p, node)] && Forms(p, arm, next) == [[Lit(OtherText(p, node))]];
  }

  lemma PlusResolves(p: Program, rank: Rank, node: nat, seen: set<nat>)
    requires Tree(p, rank, node) && Above(rank, seen, node) && p.nodes[node].Plus?
    requires var left, right, next, w := p.nodes[node].left, p.nodes[node].right, seen + {node}, NoNulls(p);
      && Only(p, Resolve(p, left, next), Forms(p, left, next), Text(p, rank, left, w))
      && Only(p, Resolve(p, right, next), Forms(p, right, next), Text(p, rank, right, w))
    ensures Only(p, Resolve(p, node, seen), Forms(p, node, seen), Text(p, rank, node, NoNulls(p)))
  {
    var left, right, next, w := p.nodes[node].left, p.nodes[node].right, seen + {node}, NoNulls(p);
    var s, t := Text(p, rank, left, w), Text(p, rank, right, w);
    OperandOnly(p, left, next, s);
    OperandOnly(p, right, next, t);
    PlusTexts(p, node, seen);
    OneProduct(p, OperandForms(p, left, next), OperandForms(p, right, next), [], s, t);
    assert s + t + "" == s + t;
    assert Forms(p, node, seen) == Products(OperandForms(p, left, next), OperandForms(p, right, next), []);
  }

  lemma {:induction false} SpansResolve(
    p: Program, rank: Rank, limit: nat, head: string, spans: seq<Span>, seen: set<nat>)
    requires SpanTrees(p, rank, limit, spans) && forall n :: n in seen ==> rank(n) >= limit
    ensures Only(p, Rendered(p, head, spans, seen), SpanForms(p, head, spans, seen),
                 SpanText(p, rank, limit, head, spans, NoNulls(p)))
    decreases limit, |spans|
  {
    RenderedStep(p, head, spans, seen);
    if spans == [] {
      LitRenders(p, head);
    } else {
      var n := |spans| - 1;
      var last := spans[n];
      SpansResolve(p, rank, limit, head, spans[..n], seen);
      TreeResolves(p, rank, last.expression, seen);
      hide Resolve, Forms, RenderOf, Tree, Text;
      var s, t := SpanText(p, rank, limit, head, spans[..n], NoNulls(p)), Text(p, rank, last.expression, NoNulls(p));
      OperandOnly(p, last.expression, seen, t);
      AppendedToOne(s, t, last.literal);
      LitRenders(p, last.literal);
      OneProduct(p, SpanForms(p, head, spans[..n], seen), OperandForms(p, last.expression, seen),
                 [Lit(last.literal)], s, t);
    }
  }

  lemma TemplateResolves(p: Program, rank: Rank, node: nat, seen: set<nat>)
    requires Tree(p, rank, node) && Above(rank, seen, node) && p.nodes[node].Template?
    requires var head, spans := p.nodes[node].head, p.nodes[node].spans;
      Only(p, Rendered(p, head, spans, seen + {node}), SpanForms(p, head, spans, seen + {node}),
           SpanText(p, rank, rank(node), head, spans, NoNulls(p)))
    ensures Only(p, Resolve(p, node, seen), Forms(p, node, seen), Text(p, rank, node, NoNulls(p)))
  {
    TemplateTexts(p, node, seen);
    assert Forms(p, node, seen) == SpanForms(p, p.nodes[node].head, p.nodes[node].spans, seen + {node});
  }

  // ----- what a run makes of a tree

  lemma {:induction false} TreeEvaluates(p: Program, rank: Rank, node: nat, w: World, fuel: nat)
    requires Tree(p, rank, node) && fuel > rank(node)
    ensures Eval(p, w, node, fuel).Some? && Eval(p, w, node, fuel).value.text == Text(p, rank, node, w)
    ensures p.nodes[node].Plus? || p.nodes[node].Template? ==> Eval(p, w, node, fuel).value.Str?
    decreases rank(node) + 1, 0
  {
    match p.nodes[node]
    case Literal(text) =>
    case Wrapped(inner) => TreeEvaluates(p, rank, inner, w, fuel - 1);
    case Reference(Some(initializer)) => TreeEvaluates(p, rank, initializer, w, fuel - 1);
    case Conditional(whenTrue, whenFalse) =>
      var arm := if w.takes(node) then whenTrue else whenFalse;
      assert Eval(p, w, node, fuel) == Eval(p, w, arm, fuel - 1);
      assert fuel - 1 > 0;
    case Plus(left, right) =>
      TreeEvaluates(p, rank, left, w, fuel - 1);
      TreeEvaluates(p, rank, right, w, fuel - 1);
    case Template(head, spans) =>
      SpansEvaluate(p, rank, rank(node), head, spans, w, fuel - 1);
  }

  lemma {:induction false} SpansEvaluate(
    p: Program, rank: Rank, limit: nat, head: string, spans: seq<Span>, w: World, fuel: nat)
    requires SpanTrees(p, rank, limit, spans) && fuel >= limit
    ensures EvalSpans(p, w, head, spans, fuel) == Some(Str(SpanText(p, rank, limit, head, spans, w)))
    decreases limit, |spans|
  {
    if spans != [] {
      var n := |spans| - 1;
      SpansEvaluate(p, rank, limit, head, spans[..n], w, fuel);
      TreeEvaluates(p, rank, spans[n].expression, w, fuel);
    }
  }

  /** More fuel never changes a value. */
  lemma {:induction false} MoreFuel(p: Program, w: World, node: nat, fuel: nat, more: nat)
    requires Eval(p, w, node, fuel).Some? && fuel <= more
    ensures Eval(p, w, node, more) == Eval(p, w, node, fuel)
    decreases fuel, 0
  {
    match NodeOf(p, node)
    case Wrapped(inner) => MoreFuel(p, w, inner, fuel - 1, more - 1);
    case Reference(Some(initializer)) => MoreFuel(p, w, initializer, fuel - 1, more - 1);
    case Conditional(whenTrue, whenFalse) =>
      MoreFuel(p, w, if w.takes(node) then whenTrue else whenFalse, fuel - 1, more - 1);
    case Plus(left, right) =>
      MoreFuel(p, w, left, fuel - 1, more - 1);
      MoreFuel(p, w, right, fuel - 1, more - 1);
    case Template(head, spans) => MoreSpanFuel(p, w, head, spans, fuel - 1, more - 1);
    case _ =>
  }

  lemma {:induction false} MoreSpanFuel(p: Program, w: World, head: string, spans: seq<Span>, fuel: nat, more: nat)
    requires EvalSpans(p, w, head, spans, fuel).Some? && fuel <= more
    ensures EvalSpans(p, w, head, spans, more) == EvalSpans(p, w, head, spans, fuel)
    decreases fuel, 1, |spans|
  {
    if spans != [] {
      MoreSpanFuel(p, w, head, spans[..|spans| - 1], fuel, more);
      MoreFuel(p, w, spans[|spans| - 1].expression, fuel, more);
    }
  }

  // ----- where two runs differ

  /** The nullable conditionals of a tree. */
  ghost predicate Holds(p: Program, rank: Rank, node: nat, c: nat)
    requires Tree(p, rank, node)
    decreases rank(node)
  {
    match p.nodes[node]
    case Literal(_) => false
    case Wrapped(inner) => Holds(p, rank, inner, c)
    case Reference(Some(initializer)) => Holds(p, rank, initializer, c)
    case Conditional(_, _) => node == c
    case Plus(left, right) => Holds(p, rank, left, c) || Holds(p, rank, right, c)
    case Template(_, spans) => exists i | 0 <= i < |spans| :: Holds(p, rank, spans[i].expression, c)
  }

  ghost predicate SpansHold(p: Program, rank: Rank, limit: nat, spans: seq<Span>, c: nat)
    requires SpanTrees(p, rank, limit, spans)
  {
    exists i | 0 <= i < |spans| :: Holds(p, rank, spans[i].expression, c)
  }

  /**
   How the run with one null compares with the one without: nothing changes where the conditional
   does not occur; otherwise texts get longer, or shorter, or stay as long but differ, according
   to the length of the conditional's literal.
   */
  ghost predicate Compares(d: int, here: bool, one: string, none: string) {
    && (!here ==> one == none)
    && (here ==> if d > 0 then |one| > |none| else if d < 0 then |one| < |none| else |one| == |none| && one != none)
  }

  lemma ComparesAppend(d: int, h: bool, k: bool, one: string, none: string, one2: string, none2: string)
    requires Compares(d, h, one, none) && Compares(d, k, one2, none2)
    ensures Compares(d, h || k, one + one2, none + none2)
  {
    if d == 0 && one + one2 == none + none2 {
      assert |one| == |none|;
      assert one == (one + one2)[..|one|] && none == (none + none2)[..|none|];
      assert one2 == (one + one2)[|one|..] && none2 == (none + none2)[|none|..];
    }
  }

  lemma {:induction false} RunsCompare(p: Program, rank: Rank, node: nat, c: nat)
    requires Tree(p, rank, node) && Nullable(p, c) && OtherText(p, c) != "null"
    ensures Compares(4 - |OtherText(p, c)|, Holds(p, rank, node, c),
                     Text(p, rank, node, OneNull(p, c)), Text(p, rank, node, NoNulls(p)))
    decreases rank(node) + 1, 0
  {
    var d := 4 - |OtherText(p, c)|;
    match p.nodes[node]
    case Literal(_) =>
    case Wrapped(inner) => RunsCompare(p, rank, inner, c);
    case Reference(Some(initializer)) => RunsCompare(p, rank, initializer, c);
    case Conditional(_, _) =>
    case Plus(left, right) =>
      RunsCompare(p, rank, left, c);
      RunsCompare(p, rank, right, c);
      ComparesAppend(d, Holds(p, rank, left, c), Holds(p, rank, right, c),
                     Text(p, rank, left, OneNull(p, c)), Text(p, rank, left, NoNulls(p)),
                     Text(p, rank, right, OneNull(p, c)), Text(p, rank, right, NoNulls(p)));
    case Template(head, spans) =>
      SpansCompare(p, rank, rank(node), head, spans, c);
      assert Holds(p, rank, node, c) <==> SpansHold(p, rank, rank(node), spans, c);
  }

  lemma {:induction false} SpansCompare(p: Program, rank: Rank, limit: nat, head: string, spans: seq<Span>, c: nat)
    requires SpanTrees(p, rank, limit, spans) && Nullable(p, c) && OtherText(p, c) != "null"
    ensures Compares(4 - |OtherText(p, c)|, SpansHold(p, rank, limit, spans, c),
                     SpanText(p, rank, limit, head, spans, OneNull(p, c)),
                     SpanText(p, rank, limit, head, spans, NoNulls(p)))
    decreases limit, |spans|
  {
    if spans != [] {
      var d, n := 4 - |OtherText(p, c)|, |spans| - 1;
      var last := spans[n];
      SpansCompare(p, rank, limit, head, spans[..n], c);
      RunsCompare(p, rank, last.expression, c);
      hide Compares, Holds, Text;
      var one, none := OneNull(p, c), NoNulls(p);
      ComparesAppend(d, SpansHold(p, rank, limit, spans[..n], c), Holds(p, rank, last.expression, c),
                     SpanText(p, rank, limit, head, spans[..n], one), SpanText(p, rank, limit, head, spans[..n], none),
                     Text(p, rank, last.expression, one), Text(p, rank, last.expression, none));
      SameCompares(d, last.literal);
      ComparesAppend(d, SpansHold(p, rank, limit, spans[..n], c) || Holds(p, rank, last.expression, c), false,
                     SpanText(p, rank, limit, head, spans[..n], one) + Text(p, rank, last.expression, one),
                     SpanText(p, rank, limit, head, spans[..n], none) + Text(p, rank, last.expression, none),
                     last.literal, last.literal);
      HoldsLast(p, rank, limit, spans, c);
    }
  }

  lemma SameCompares(d: int, s: string)
    ensures Compares(d, false, s, s)
  {
  }

  lemma HoldsLast(p: Program, rank: Rank, limit: nat, spans: seq<Span>, c: nat)
    requires SpanTrees(p, rank, limit, spans) && spans != []
    ensures var n := |spans| - 1;
      SpansHold(p, rank, limit, spans, c)
        == (SpansHold(p, rank, limit, spans[..n], c) || Holds(p, rank, spans[n].expression, c))
  {
    hide Holds, Tree;
    var n := |spans| - 1;
    if SpansHold(p, rank, limit, spans, c) {
      var i :| 0 <= i < |spans| && Holds(p, rank, spans[i].expression, c);
      assert i < n ==> spans[..n][i] == spans[i];
    }
    if SpansHold(p, rank, limit, spans[..n], c) {
      var i :| 0 <= i < n && Holds(p, rank, spans[..n][i].expression, c);
      assert spans[..n][i] == spans[i];
    }
  }

  /** Every nullable conditional of the tree has the literal "null" as its other arm. */
  ghost predicate SpellsNull(p: Program, rank: Rank, node: nat)
    requires Tree(p, rank, node)
  {
    forall c :: Nullable(p, c) && Holds(p, rank, node, c) ==> OtherText(p, c) == "null"
  }

  lemma {:induction false} RunsAgree(p: Program, rank: Rank, node: nat, w: World)
    requires Tree(p, rank, node) && SpellsNull(p, rank, node)
    ensures Text(p, rank, node, w) == Text(p, rank, node, NoNulls(p))
    decreases rank(node) + 1, 0
  {
    match p.nodes[node]
    case Literal(_) =>
    case Wrapped(inner) => RunsAgree(p, rank, inner, w);
    case Reference(Some(initializer)) => RunsAgree(p, rank, initializer, w);
    case Conditional(_, _) => assert Holds(p, rank, node, node);
    case Plus(left, right) =>
      RunsAgree(p, rank, left, w);
      RunsAgree(p, rank, right, w);
    case Template(head, spans) =>
      forall i | 0 <= i < |spans| ensures SpellsNull(p, rank, spans[i].expression) {
        forall c | Nullable(p, c) && Holds(p, rank, spans[i].expression, c) ensures OtherText(p, c) == "null" {
          assert Holds(p, rank, node, c);
        }
      }
      SpanRunsAgree(p, rank, rank(node), head, spans, w);
  }

  lemma {:induction false} SpanRunsAgree(p: Program, rank: Rank, limit: nat, head: string, spans: seq<Span>, w: World)
    requires SpanTrees(p, rank, limit, spans)
    requires forall i :: 0 <= i < |spans| ==> SpellsNull(p, rank, spans[i].expression)
    ensures SpanText(p, rank, limit, head, spans, w) == SpanText(p, rank, limit, head, spans, NoNulls(p))
    decreases limit, |spans|
  {
    if spans != [] {
      var n := |spans| - 1;
      assert forall i :: 0 <= i < n ==> spans[..n][i] == spans[i];
      SpanRunsAgree(p, rank, limit, head, spans[..n], w);
      RunsAgree(p, rank, spans[n].expression, w);
    }
  }

  // ----- the exact condition

  predicate IsConcatenation(p: Program, node: nat) {
    NodeOf(p, node).Plus? || NodeOf(p, node).Template?
  }

  /** In one run a concatenation tree is sound exactly when the run gives the text of the run without nulls. */
  lemma SoundInRun(p: Program, rank: Rank, node: nat, w: World, fill: Filler, fuel: nat)
    requires Tree(p, rank, node) && IsConcatenation(p, node)
    ensures Eval(p, w, node, fuel).Some? ==>
      (Sound(p, w, fill, node, fuel) <==> Text(p, rank, node, w) == Text(p, rank, node, NoNulls(p)))
  {
    if Eval(p, w, node, fuel).Some? {
      var more := fuel + rank(node) + 1;
      MoreFuel(p, w, node, fuel, more);
      TreeEvaluates(p, rank, node, w, more);
      TreeResolves(p, rank, node, {});
      hide Resolve, Forms, Eval, Matches, RenderOf, Tree, Text;
      var text := Text(p, rank, node, NoNulls(p));
      var form := Forms(p, node, {})[0];
      LiterallyMatches(p, form, Text(p, rank, node, w), fill);
      assert Forms(p, node, {}) == [form];
      assert form in Forms(p, node, {}) && text in Resolve(p, node, {});
    }
  }

  /** What goes wrong when a conditional does not spell "null": the run's string is another one. */
  lemma NullArmMisleads(p: Program, rank: Rank, node: nat, c: nat)
    requires Tree(p, rank, node) && IsConcatenation(p, node)
    requires Nullable(p, c) && Holds(p, rank, node, c) && OtherText(p, c) != "null"
    ensures var fuel := rank(node) + 1;
      && Resolve(p, node, {}) == [Text(p, rank, node, NoNulls(p))]
      && Eval(p, OneNull(p, c), node, fuel) == Some(Str(Text(p, rank, node, OneNull(p, c))))
      && Text(p, rank, node, OneNull(p, c)) != Text(p, rank, node, NoNulls(p))
      && !Sound(p, OneNull(p, c), AnyText(), node, fuel)
  {
    TreeResolves(p, rank, node, {});
    TreeEvaluates(p, rank, node, OneNull(p, c), rank(node) + 1);
    RunsCompare(p, rank, node, c);
    SoundInRun(p, rank, node, OneNull(p, c), AnyText(), rank(node) + 1);
  }

  /**
   A concatenation of literals and nullable conditionals, nested in any way, is sound in every run
   exactly when each of its nullable conditionals has the literal "null" as its other arm.
   */
  lemma NullArmsExact(p: Program, rank: Rank, node: nat)
    requires Tree(p, rank, node) && IsConcatenation(p, node)
    ensures (forall w: World, fuel: nat :: Sound(p, w, AnyText(), node, fuel)) <==> SpellsNull(p, rank, node)
  {
    hide Tree, Text, Holds, Sound, Resolve, Eval;
    if SpellsNull(p, rank, node) {
      forall w: World, fuel: nat ensures Sound(p, w, AnyText(), node, fuel) {
        RunsAgree(p, rank, node, w);
        SoundInRun(p, rank, node, w, AnyText(), fuel);
        NothingToSay(p, w, node, fuel);
      }
    } else {
      var c :| Nullable(p, c) && Holds(p, rank, node, c) && OtherText(p, c) != "null";
      NullArmMisleads(p, rank, node, c);
    }
  }

  lemma NothingToSay(p: Program, w: World, node: nat, fuel: nat)
    ensures Eval(p, w, node, fuel).None? ==> Sound(p, w, AnyText(), node, fuel)
  {
  }
}
