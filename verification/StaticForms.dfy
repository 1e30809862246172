/**
 What the texts of the static evaluator mean. A text is the rendering of a form, a list of
 literals and gaps; every gap stands for one operand of a concatenation and is filled by one
 stretch of the run-time string, while every literal has to appear as it is, in order.
 */
module StaticForms {
  import opened Common
  import opened StaticTexts

  datatype Part = Lit(text: string) | Gap(node: nat)

  type Form = seq<Part>

  function PartText(p: Program, part: Part): string {
    match part
    case Lit(text) => text
    case Gap(node) => Hole(p, node)
  }

  function RenderOf(p: Program, form: Form): string {
    if form == [] then "" else PartText(p, form[0]) + RenderOf(p, form[1..])
  }

  // ----- the evaluator with forms instead of texts

  function Products(prefixes: seq<Form>, values: seq<Form>, tail: Form): seq<Form> {
    if prefixes == [] then []
    else
      seq(|values|, i requires 0 <= i < |values| => prefixes[0] + values[i] + tail)
      + Products(prefixes[1..], values, tail)
  }

  function Forms(p: Program, node: nat, seen: set<nat>): seq<Form>
    decreases Unseen(p, seen), 0
  {
    if node !in p.nodes || node in seen then []
    else
      UnseenShrinks(p, seen, node);
      var next := seen + {node};
      match p.nodes[node]
      case Literal(text) => [[Lit(text)]]
      case Wrapped(inner) => Forms(p, inner, next)
      case Reference(Some(initializer)) => Forms(p, initializer, next)
      case Conditional(whenTrue, whenFalse) =>
        if NodeOf(p, whenTrue).NullKeyword? then Forms(p, whenFalse, next)
        else if NodeOf(p, whenFalse).NullKeyword? then Forms(p, whenTrue, next)
        else if |Resolve(p, whenTrue, next)| > 0 && |Resolve(p, whenFalse, next)| > 0
        then Forms(p, whenTrue, next) + Forms(p, whenFalse, next)
        else []
      case Plus(left, right) => Products(OperandForms(p, left, next), OperandForms(p, right, next), [])
      case Template(head, spans) => SpanForms(p, head, spans, next)
      case _ => []
  }

  /** An operand with exactly one text contributes its forms; any other is a gap. */
  function OperandForms(p: Program, node: nat, seen: set<nat>): seq<Form>
    decreases Unseen(p, seen), 1
  {
    if |Resolve(p, node, seen)| == 1 then Forms(p, node, seen) else [[Gap(node)]]
  }

  function SpanForms(p: Program, head: string, spans: seq<Span>, seen: set<nat>): seq<Form>
    decreases Unseen(p, seen), 2, |spans|
  {
    if spans == [] then [[Lit(head)]]
    else
      var last := spans[|spans| - 1];
      Products(SpanForms(p, head, spans[..|spans| - 1], seen), OperandForms(p, last.expression, seen),
               [Lit(last.literal)])
  }

  // ----- the texts are exactly the renderings of the forms

  lemma {:induction false} RenderAppend(p: Program, a: Form, b: Form)
    ensures RenderOf(p, a + b) == RenderOf(p, a) + RenderOf(p, b)
  {
    if a == [] {
      assert a + b == b;
    } else {
      assert (a + b)[1..] == a[1..] + b;
      RenderAppend(p, a[1..], b);
    }
  }

  lemma {:induction false} IntoProducts(prefixes: seq<Form>, values: seq<Form>, tail: Form, x: Form, y: Form)
    requires x in prefixes && y in values
    ensures x + y + tail in Products(prefixes, values, tail)
  {
    if x == prefixes[0] {
      var i :| 0 <= i < |values| && values[i] == y;
      assert Products(prefixes, values, tail)[i] == x + y + tail;
    } else {
      IntoProducts(prefixes[1..], values, tail, x, y);
    }
  }

  lemma {:induction false} FromProducts(prefixes: seq<Form>, values: seq<Form>, tail: Form, f: Form)
    returns (x: Form, y: Form)
    requires f in Products(prefixes, values, tail)
    ensures x in prefixes && y in values && f == x + y + tail
  {
    var k :| 0 <= k < |Products(prefixes, values, tail)| && Products(prefixes, values, tail)[k] == f;
    if k < |values| {
      x, y := prefixes[0], values[k];
    } else {
      assert f == Products(prefixes[1..], values, tail)[k - |values|];
      x, y := FromProducts(prefixes[1..], values, tail, f);
    }
  }

  ghost predicate AllRender(p: Program, forms: seq<Form>, text: string) {
    forms != [] && forall f :: f in forms ==> RenderOf(p, f) == text
  }

  ghost predicate Agrees(p: Program, texts: seq<string>, forms: seq<Form>) {
    && (forall f :: f in forms ==> RenderOf(p, f) in texts)
    && (forall t :: t in texts ==> exists f :: f in forms && RenderOf(p, f) == t)
  }

  lemma ProductsRender(p: Program, prefixes: seq<Form>, values: seq<Form>, tail: Form, a: string, b: string)
    requires AllRender(p, prefixes, a) && AllRender(p, values, b)
    ensures AllRender(p, Products(prefixes, values, tail), a + b + RenderOf(p, tail))
  {
    var products := Products(prefixes, values, tail);
    IntoProducts(prefixes, values, tail, prefixes[0], values[0]);
    forall f | f in products ensures RenderOf(p, f) == a + b + RenderOf(p, tail) {
      var x, y := FromProducts(prefixes, values, tail, f);
      RenderAppend(p, x, y);
      RenderAppend(p, x + y, tail);
    }
  }

  /** The evaluator's texts are the renderings of its forms. */
  lemma {:induction false} TextsAreRenderings(p: Program, node: nat, seen: set<nat>)
    ensures Agrees(p, Resolve(p, node, seen), Forms(p, node, seen))
    decreases Unseen(p, seen), 0
  {
    if node in p.nodes && node !in seen {
      UnseenShrinks(p, seen, node);
      var next := seen + {node};
      match p.nodes[node]
      case Literal(text) => LitRenders(p, text);
      case Wrapped(inner) => TextsAreRenderings(p, inner, next);
      case Reference(Some(initializer)) => TextsAreRenderings(p, initializer, next);
      case Conditional(whenTrue, whenFalse) =>
        TextsAreRenderings(p, whenTrue, next);
        TextsAreRenderings(p, whenFalse, next);
        ConditionalAgrees(p, node, seen);
      case Plus(left, right) =>
        OperandRenders(p, left, next);
        OperandRenders(p, right, next);
        PlusAgrees(p, node, seen);
      case Template(head, spans) =>
        SpansRender(p, head, spans, next);
        TemplateAgrees(p, node, seen);
      case _ =>
    }
  }

  lemma LitRenders(p: Program, text: string)
    ensures RenderOf(p, [Lit(text)]) == text
  {
    assert [Lit(text)][1..] == [];
    assert text + "" == text;
  }

  lemma GapRenders(p: Program, node: nat)
    ensures RenderOf(p, [Gap(node)]) == Hole(p, node)
  {
    assert [Gap(node)][1..] == [];
    assert Hole(p, node) + "" == Hole(p, node);
  }

  lemma ConditionalAgrees(p: Program, node: nat, seen: set<nat>)
    requires node in p.nodes && node !in seen && p.nodes[node].Conditional?
    requires Agrees(p, Resolve(p, p.nodes[node].whenTrue, seen + {node}),
             Forms(p, p.nodes[node].whenTrue, seen + {node}))
    requires Agrees(p, Resolve(p, p.nodes[node].whenFalse, seen + {node}),
             Forms(p, p.nodes[node].whenFalse, seen + {node}))
    ensures Agrees(p, Resolve(p, node, seen), Forms(p, node, seen))
  {
    ConditionalStep(p, node, seen);
    ConditionalForms(p, node, seen);
    var t, f := Resolve(p, p.nodes[node].whenTrue, seen + {node}), Resolve(p, p.nodes[node].whenFalse, seen + {node});
    hide Forms, Resolve, RenderOf;
  }

  lemma ConditionalForms(p: Program, node: nat, seen: set<nat>)
    requires node in p.nodes && node !in seen && p.nodes[node].Conditional?
    ensures var t := p.nodes[node].whenTrue;
      var f := p.nodes[node].whenFalse;
      var next := seen + {node};
      Forms(p, node, seen) ==
        if NodeOf(p, t).NullKeyword? then Forms(p, f, next)
        else if NodeOf(p, f).NullKeyword? then Forms(p, t, next)
        else if |Resolve(p, t, next)| > 0 && |Resolve(p, f, next)| > 0 then Forms(p, t, next) + Forms(p, f, next)
        else []
  {
  }

  lemma {:induction false} OperandRenders(p: Program, node: nat, seen: set<nat>)
    ensures AllRender(p, OperandForms(p, node, seen), Values(p, node, Resolve(p, node, seen))[0])
    decreases Unseen(p, seen), 1
  {
    TextsAreRenderings(p, node, seen);
    GapRenders(p, node);
    hide Forms, Resolve, RenderOf;
    var texts := Resolve(p, node, seen);
    if |texts| == 1 {
      assert texts[0] in texts;
    }
  }

  lemma {:induction false} SpansRender(p: Program, head: string, spans: seq<Span>, seen: set<nat>)
    ensures var rendered := Rendered(p, head, spans, seen);
      |rendered| == 1 && AllRender(p, SpanForms(p, head, spans, seen), rendered[0])
    decreases Unseen(p, seen), 2, |spans|
  {
    RenderedStep(p, head, spans, seen);
    if spans == [] {
      LitRenders(p, head);
    } else {
      var n := |spans| - 1;
      var last := spans[n];
      SpansRender(p, head, spans[..n], seen);
      OperandRenders(p, last.expression, seen);
      LitRenders(p, last.literal);
      var prefix := Rendered(p, head, spans[..n], seen)[0];
      var value := Values(p, last.expression, Resolve(p, last.expression, seen))[0];
      hide RenderOf, Resolve, Products, OperandForms, AllRender;
      ProductsRender(p, SpanForms(p, head, spans[..n], seen), OperandForms(p, last.expression, seen),
                     [Lit(last.literal)], prefix, value);
      AppendedToOne(prefix, value, last.literal);
      assert Rendered(p, head, spans[..n], seen) == [prefix];
      assert Values(p, last.expression, Resolve(p, last.expression, seen)) == [value];
    }
  }

  lemma PlusAgrees(p: Program, node: nat, seen: set<nat>)
    requires node in p.nodes && node !in seen && p.nodes[node].Plus?
    requires var next := seen + {node};
      && AllRender(p, OperandForms(p, p.nodes[node].left, next),
                   Values(p, p.nodes[node].left, Resolve(p, p.nodes[node].left, next))[0])
      && AllRender(p, OperandForms(p, p.nodes[node].right, next),
                   Values(p, p.nodes[node].right, Resolve(p, p.nodes[node].right, next))[0])
    ensures Agrees(p, Resolve(p, node, seen), Forms(p, node, seen))
  {
    var left, right, next := p.nodes[node].left, p.nodes[node].right, seen + {node};
    var a, b := Values(p, left, Resolve(p, left, next))[0], Values(p, right, Resolve(p, right, next))[0];
    ProductsRender(p, OperandForms(p, left, next), OperandForms(p, right, next), [], a, b);
    PlusTexts(p, node, seen);
    assert a + b + "" == a + b;
    assert Forms(p, node, seen) == Products(OperandForms(p, left, next), OperandForms(p, right, next), []);
    OneTextAgrees(p, Forms(p, node, seen), a + b);
  }

  lemma PlusStep(p: Program, node: nat, seen: set<nat>)
    requires node in p.nodes && node !in seen && p.nodes[node].Plus?
    ensures var next := seen + {node};
      Resolve(p, node, seen)
        == Unique(Appended(Values(p, p.nodes[node].left, Resolve(p, p.nodes[node].left, next)),
                           Values(p, p.nodes[node].right, Resolve(p, p.nodes[node].right, next)), ""))
  {
    hide Appended, Values, Unique, Hole;
  }

  lemma PlusTexts(p: Program, node: nat, seen: set<nat>)
    requires node in p.nodes && node !in seen && p.nodes[node].Plus?
    ensures var next := seen + {node};
      Resolve(p, node, seen)
        == [Values(p, p.nodes[node].left, Resolve(p, p.nodes[node].left, next))[0]
            + Values(p, p.nodes[node].right, Resolve(p, p.nodes[node].right, next))[0]]
  {
    PlusStep(p, node, seen);
    hide Resolve, Appended, Hole;
    var left, right, next := p.nodes[node].left, p.nodes[node].right, seen + {node};
    var a, b := Values(p, left, Resolve(p, left, next)), Values(p, right, Resolve(p, right, next));
    AppendedToOne(a[0], b[0], "");
    assert a == [a[0]] && b == [b[0]] && a[0] + b[0] + "" == a[0] + b[0];
  }

  lemma OneTextAgrees(p: Program, forms: seq<Form>, text: string)
    requires AllRender(p, forms, text)
    ensures Agrees(p, [text], forms)
  {
    assert forms[0] in forms;
  }

  lemma TemplateAgrees(p: Program, node: nat, seen: set<nat>)
    requires node in p.nodes && node !in seen && p.nodes[node].Template?
    requires var rendered := Rendered(p, p.nodes[node].head, p.nodes[node].spans, seen + {node});
      |rendered| == 1 && AllRender(p, SpanForms(p, p.nodes[node].head, p.nodes[node].spans, seen + {node}), rendered[0])
    ensures Agrees(p, Resolve(p, node, seen), Forms(p, node, seen))
  {
    TemplateTexts(p, node, seen);
    var rendered := Rendered(p, p.nodes[node].head, p.nodes[node].spans, seen + {node});
    assert Forms(p, node, seen) == SpanForms(p, p.nodes[node].head, p.nodes[node].spans, seen + {node});
    assert rendered == [rendered[0]];
    OneTextAgrees(p, Forms(p, node, seen), rendered[0]);
  }

  lemma TemplateTexts(p: Program, node: nat, seen: set<nat>)
    requires node in p.nodes && node !in seen && p.nodes[node].Template?
    requires |Rendered(p, p.nodes[node].head, p.nodes[node].spans, seen + {node})| == 1
    ensures Resolve(p, node, seen) == Rendered(p, p.nodes[node].head, p.nodes[node].spans, seen + {node})
  {
  }

  /** An operand without exactly one text shows as its source between dollar-brace and brace. */
  lemma UnresolvedSpan(p: Program, node: nat, head: string, span: Span, seen: set<nat>)
    requires node in p.nodes && node !in seen && p.nodes[node] == Template(head, [span])
    requires span.expression in p.source && |Resolve(p, span.expression, seen + {node})| != 1
    ensures Resolve(p, node, seen) == [head + ("${" + p.source[span.expression] + "}") + span.literal]
  {
    var spans, next := [span], seen + {node};
    assert spans[..0] == [] && Rendered(p, head, [], next) == [head];
    RenderedStep(p, head, spans, next);
    AppendedToOne(head, Hole(p, span.expression), span.literal);
    TemplateTexts(p, node, seen);
  }

  // ----- filling the gaps

  /** Which strings may fill the gap of an operand. */
  type Filler = (nat, string) -> bool

  /** Any stretch may fill any gap. */
  function AnyText(): Filler {
    (_: nat, _: string) => true
  }

  ghost predicate IsValue(p: Program, w: World, node: nat, s: string) {
    exists fuel: nat :: Eval(p, w, node, fuel).Some? && Eval(p, w, node, fuel).value.text == s
  }

  /** Each gap is filled by the text that its operand has in this very run. */
  ghost function RunText(p: Program, w: World): Filler {
    (node: nat, s: string) => IsValue(p, w, node, s)
  }

  /** The string is the form with every gap filled by one stretch. */
  ghost predicate Matches(form: Form, s: string, fill: Filler)
    decreases |form|
  {
    if form == [] then s == ""
    else if form[0].Lit? then form[0].text <= s && Matches(form[1..], s[|form[0].text|..], fill)
    else exists j :: 0 <= j <= |s| && fill(form[0].node, s[..j]) && Matches(form[1..], s[j..], fill)
  }

  lemma MatchesLit(text: string, fill: Filler)
    ensures Matches([Lit(text)], text, fill)
  {
    assert [Lit(text)][1..] == [];
    assert text[|text|..] == "";
  }

  lemma MatchesGap(node: nat, s: string, fill: Filler)
    requires fill(node, s)
    ensures Matches([Gap(node)], s, fill)
  {
    assert [Gap(node)][1..] == [];
    assert s[..|s|] == s && s[|s|..] == "";
  }

  /** The first part takes the first j characters. */
  ghost predicate Takes(part: Part, s: string, j: nat, fill: Filler) {
    j <= |s| && if part.Lit? then s[..j] == part.text else fill(part.node, s[..j])
  }

  lemma FirstTakes(form: Form, s: string, fill: Filler) returns (j: nat)
    requires form != [] && Matches(form, s, fill)
    ensures j <= |s| && Takes(form[0], s, j, fill) && Matches(form[1..], s[j..], fill)
  {
    if form[0].Lit? {
      j := |form[0].text|;
    } else {
      j :| 0 <= j <= |s| && fill(form[0].node, s[..j]) && Matches(form[1..], s[j..], fill);
    }
  }

  lemma TakesFirst(form: Form, s: string, j: nat, fill: Filler)
    requires form != [] && Takes(form[0], s, j, fill) && Matches(form[1..], s[j..], fill)
    ensures Matches(form, s, fill)
  {
    if form[0].Lit? {
      assert |form[0].text| == j;
    }
  }

  lemma {:induction false} MatchesAppend(a: Form, b: Form, s: string, t: string, fill: Filler)
    requires Matches(a, s, fill) && Matches(b, t, fill)
    ensures Matches(a + b, s + t, fill)
    decreases |a|
  {
    if a == [] {
      assert a + b == b && s + t == t;
    } else {
      hide Matches, Takes;
      var j := FirstTakes(a, s, fill);
      TakesWithin(a[0], s, t, j, fill);
      MatchesAppend(a[1..], b, s[j..], t, fill);
      assert (a + b)[0] == a[0] && (a + b)[1..] == a[1..] + b;
      TakesFirst(a + b, s + t, j, fill);
    }
  }

  lemma TakesWithin(part: Part, s: string, t: string, j: nat, fill: Filler)
    requires Takes(part, s, j, fill)
    ensures Takes(part, s + t, j, fill) && j <= |s| && (s + t)[j..] == s[j..] + t
  {
    assert (s + t)[..j] == s[..j];
  }

  lemma {:induction false} MatchesMore(form: Form, s: string, fill: Filler, more: Filler)
    requires Matches(form, s, fill) && forall n: nat, u :: fill(n, u) ==> more(n, u)
    ensures Matches(form, s, more)
    decreases |form|
  {
    if form != [] {
      hide Matches;
      var j := FirstTakes(form, s, fill);
      MatchesMore(form[1..], s[j..], fill, more);
      TakesFirst(form, s, j, more);
    }
  }

  // ----- where the evaluator comes by

  /** The parts that the evaluator resolves to resolve the whole. */
  predicate PartOf(parent: Node, node: nat) {
    match parent
    case Wrapped(inner) => node == inner
    case Reference(Some(initializer)) => node == initializer
    case Conditional(whenTrue, whenFalse) => node == whenTrue || node == whenFalse
    case _ => OperandOf(parent, node)
  }

  /** The path of nodes from the first call to a call on `node`, none visited twice. */
  ghost predicate Trail(p: Program, path: seq<nat>, node: nat) {
    && (forall i :: 0 <= i < |path| ==> path[i] in p.nodes)
    && (forall i, j :: 0 <= i < j < |path| ==> path[i] != path[j])
    && (forall i :: 0 <= i < |path| - 1 ==> PartOf(p.nodes[path[i]], path[i + 1]))
    && (path != [] ==> PartOf(p.nodes[path[|path| - 1]], node))
  }

  /** Some evaluation, started anywhere without visited nodes, calls the evaluator on `node` with these. */
  ghost predicate Reached(p: Program, node: nat, seen: set<nat>) {
    exists path :: Trail(p, path, node) && forall n :: n in seen <==> n in path
  }

  /** Some evaluation resolves `node` as an operand of a concatenation. */
  ghost predicate ReachedOperand(p: Program, node: nat, seen: set<nat>) {
    exists parent, before ::
      && parent in p.nodes && parent !in before && Reached(p, parent, before)
      && OperandOf(p.nodes[parent], node) && seen == before + {parent}
  }

  lemma ReachedFirst(p: Program, node: nat)
    ensures Reached(p, node, {})
  {
    assert Trail(p, [], node);
  }

  lemma ReachedPart(p: Program, parent: nat, seen: set<nat>, node: nat)
    requires parent in p.nodes && parent !in seen && Reached(p, parent, seen) && PartOf(p.nodes[parent], node)
    ensures Reached(p, node, seen + {parent})
    ensures OperandOf(p.nodes[parent], node) ==> ReachedOperand(p, node, seen + {parent})
  {
    var path :| Trail(p, path, parent) && forall n :: n in seen <==> n in path;
    hide PartOf, OperandOf;
    var longer := path + [parent];
    assert forall i :: 0 <= i < |path| ==> longer[i] == path[i] && path[i] in path;
    assert Trail(p, longer, node);
    assert forall n :: n in seen + {parent} <==> n in longer;
  }

  // ----- soundness

  ghost predicate SomeMatches(forms: seq<Form>, s: string, fill: Filler) {
    exists f :: f in forms && Matches(f, s, fill)
  }

  /** Every value of an operand may fill its gap. */
  ghost predicate Fills(p: Program, w: World, fill: Filler) {
    forall node, fuel: nat :: IsOperand(p, node) && Eval(p, w, node, fuel).Some? ==>
      fill(node, Eval(p, w, node, fuel).value.text)
  }

  ghost predicate HarmlessAt(p: Program, w: World, fill: Filler, node: nat, seen: set<nat>, fuel: nat) {
    var v := Eval(p, w, node, fuel);
    v.Some? && v.value.NotStr? && |Resolve(p, node, seen)| == 1 ==>
      SomeMatches(Forms(p, node, seen), v.value.text, fill)
  }

  /** A value that is not a string reaches a concatenation only where its text is foreseen. */
  ghost predicate Harmless(p: Program, w: World, fill: Filler) {
    forall node, seen, fuel: nat :: ReachedOperand(p, node, seen) ==> HarmlessAt(p, w, fill, node, seen, fuel)
  }

  ghost predicate SoundAt(p: Program, w: World, fill: Filler, node: nat, seen: set<nat>, fuel: nat) {
    var v := Eval(p, w, node, fuel);
    v.Some? && v.value.Str? && Resolve(p, node, seen) != [] ==> SomeMatches(Forms(p, node, seen), v.value.text, fill)
  }

  lemma OperandMatches(p: Program, w: World, fill: Filler, node: nat, seen: set<nat>, fuel: nat)
    requires ReachedOperand(p, node, seen)
    requires Harmless(p, w, fill) && Fills(p, w, fill) && SoundAt(p, w, fill, node, seen, fuel)
    requires Eval(p, w, node, fuel).Some?
    ensures SomeMatches(OperandForms(p, node, seen), Eval(p, w, node, fuel).value.text, fill)
  {
    hide Resolve, Eval, Matches, Forms, Reached, OperandOf;
    var v := Eval(p, w, node, fuel).value;
    assert IsOperand(p, node);
    if |Resolve(p, node, seen)| != 1 {
      MatchesGap(node, v.text, fill);
      assert [Gap(node)] in OperandForms(p, node, seen);
    } else if v.NotStr? {
      assert HarmlessAt(p, w, fill, node, seen, fuel);
    }
  }

  lemma SomeProduct(prefixes: seq<Form>, values: seq<Form>, tail: Form, s: string, t: string, u: string, fill: Filler)
    requires SomeMatches(prefixes, s, fill) && SomeMatches(values, t, fill) && Matches(tail, u, fill)
    ensures SomeMatches(Products(prefixes, values, tail), s + t + u, fill)
  {
    hide Matches, Products;
    var x :| x in prefixes && Matches(x, s, fill);
    var y :| y in values && Matches(y, t, fill);
    IntoProducts(prefixes, values, tail, x, y);
    MatchesAppend(x, y, s, t, fill);
    MatchesAppend(x + y, tail, s + t, u, fill);
  }

  lemma {:induction false} SpansMatch(
    p: Program, w: World, fill: Filler, head: string, spans: seq<Span>, seen: set<nat>, fuel: nat)
    requires Harmless(p, w, fill) && Fills(p, w, fill) && EvalSpans(p, w, head, spans, fuel).Some?
    requires forall i :: 0 <= i < |spans| ==>
      ReachedOperand(p, spans[i].expression, seen) && SoundAt(p, w, fill, spans[i].expression, seen, fuel)
    ensures SomeMatches(SpanForms(p, head, spans, seen), EvalSpans(p, w, head, spans, fuel).value.text, fill)
    decreases |spans|
  {
    hide Harmless, Fills, ReachedOperand, SoundAt, Matches, Resolve, Eval, EvalSpans, OperandForms, Products;
    EvalSpansStep(p, w, head, spans, fuel);
    if spans == [] {
      MatchesLit(head, fill);
      assert [Lit(head)] in SpanForms(p, head, spans, seen);
    } else {
      var n := |spans| - 1;
      var last := spans[n];
      SpansMatch(p, w, fill, head, spans[..n], seen, fuel);
      OperandMatches(p, w, fill, last.expression, seen, fuel);
      MatchesLit(last.literal, fill);
      SomeProduct(SpanForms(p, head, spans[..n], seen), OperandForms(p, last.expression, seen), [Lit(last.literal)],
                  EvalSpans(p, w, head, spans[..n], fuel).value.text,
                  Eval(p, w, last.expression, fuel).value.text, last.literal, fill);
    }
  }

  /**
   Soundness, for every way of filling gaps that admits the operands' values: where no value but a
   string reaches a concatenation unforeseen, a non-empty result has a form that the run-time
   string matches, whichever arms and values the run takes.
   */
  lemma {:induction false} FormSoundness(p: Program, w: World, fill: Filler, node: nat, seen: set<nat>, fuel: nat)
    requires Harmless(p, w, fill) && Fills(p, w, fill) && Reached(p, node, seen)
    ensures SoundAt(p, w, fill, node, seen, fuel)
    decreases fuel
  {
    hide Harmless, Fills, SoundAt, Matches, Reached, PartOf;
    if fuel > 0 && node in p.nodes && node !in seen {
      var next := seen + {node};
      forall part | PartOf(p.nodes[node], part) ensures SoundAt(p, w, fill, part, next, fuel - 1) {
        ReachedPart(p, node, seen, part);
        FormSoundness(p, w, fill, part, next, fuel - 1);
      }
      SoundFromParts(p, w, fill, node, seen, fuel);
    } else {
      NothingSound(p, w, fill, node, seen, fuel);
    }
  }

  lemma NothingSound(p: Program, w: World, fill: Filler, node: nat, seen: set<nat>, fuel: nat)
    requires fuel == 0 || node !in p.nodes || node in seen
    ensures SoundAt(p, w, fill, node, seen, fuel)
  {
  }

  lemma SoundFromParts(p: Program, w: World, fill: Filler, node: nat, seen: set<nat>, fuel: nat)
    requires fuel > 0 && node in p.nodes && node !in seen
    requires Harmless(p, w, fill) && Fills(p, w, fill) && Reached(p, node, seen)
    requires forall part :: PartOf(p.nodes[node], part) ==> SoundAt(p, w, fill, part, seen + {node}, fuel - 1)
    ensures SoundAt(p, w, fill, node, seen, fuel)
  {
    hide Harmless, Fills, Matches, Reached;
    match p.nodes[node]
    case Literal(text) => MatchesLit(text, fill);
      assert [Lit(text)] in Forms(p, node, seen);
    case Wrapped(inner) => assert PartOf(p.nodes[node], inner);
    case Reference(Some(initializer)) => assert PartOf(p.nodes[node], initializer);
    case Conditional(whenTrue, whenFalse) =>
      assert PartOf(p.nodes[node], whenTrue) && PartOf(p.nodes[node], whenFalse);
      ConditionalSound(p, w, fill, node, seen, fuel);
    case Plus(left, right) =>
      assert PartOf(p.nodes[node], left) && PartOf(p.nodes[node], right);
      PlusSound(p, w, fill, node, seen, fuel);
    case Template(_, spans) =>
      assert forall i :: 0 <= i < |spans| ==> PartOf(p.nodes[node], spans[i].expression);
      TemplateSound(p, w, fill, node, seen, fuel);
    case _ =>
  }

  lemma NullValue(p: Program, w: World, node: nat, fuel: nat)
    ensures NodeOf(p, node).NullKeyword? && Eval(p, w, node, fuel).Some? ==> Eval(p, w, node, fuel) == Some(NULL)
  {
  }

  lemma ConditionalSound(p: Program, w: World, fill: Filler, node: nat, seen: set<nat>, fuel: nat)
    requires fuel > 0 && node in p.nodes && node !in seen && p.nodes[node].Conditional?
    requires SoundAt(p, w, fill, p.nodes[node].whenTrue, seen + {node}, fuel - 1)
    requires SoundAt(p, w, fill, p.nodes[node].whenFalse, seen + {node}, fuel - 1)
    ensures SoundAt(p, w, fill, node, seen, fuel)
  {
    hide Matches;
    var v := Eval(p, w, node, fuel);
    var arm := if w.takes(node) then p.nodes[node].whenTrue else p.nodes[node].whenFalse;
    ConditionalStep(p, node, seen);
    ConditionalForms(p, node, seen);
    if v.Some? && v.value.Str? && Resolve(p, node, seen) != [] {
      assert v == Eval(p, w, arm, fuel - 1);
      NullValue(p, w, arm, fuel - 1);
      assert Resolve(p, arm, seen + {node}) != [];
      var f :| f in Forms(p, arm, seen + {node}) && Matches(f, v.value.text, fill);
      assert f in Forms(p, node, seen);
    }
  }

  lemma PlusSound(p: Program, w: World, fill: Filler, node: nat, seen: set<nat>, fuel: nat)
    requires fuel > 0 && node in p.nodes && node !in seen && p.nodes[node].Plus?
    requires Harmless(p, w, fill) && Fills(p, w, fill) && Reached(p, node, seen)
    requires SoundAt(p, w, fill, p.nodes[node].left, seen + {node}, fuel - 1)
    requires SoundAt(p, w, fill, p.nodes[node].right, seen + {node}, fuel - 1)
    ensures SoundAt(p, w, fill, node, seen, fuel)
  {
    hide Matches, Harmless, Fills, OperandForms, Products, Reached, ReachedOperand;
    var left, right, next := p.nodes[node].left, p.nodes[node].right, seen + {node};
    ReachedPart(p, node, seen, left);
    ReachedPart(p, node, seen, right);
    var l, r := Eval(p, w, left, fuel - 1), Eval(p, w, right, fuel - 1);
    if l.Some? && r.Some? {
      OperandMatches(p, w, fill, left, next, fuel - 1);
      OperandMatches(p, w, fill, right, next, fuel - 1);
      NothingMatches(fill);
      SomeProduct(OperandForms(p, left, next), OperandForms(p, right, next), [], l.value.text, r.value.text, "", fill);
      assert l.value.text + r.value.text + "" == l.value.text + r.value.text;
    }
  }

  lemma NothingMatches(fill: Filler)
    ensures Matches([], "", fill)
  {
  }

  lemma TemplateSound(p: Program, w: World, fill: Filler, node: nat, seen: set<nat>, fuel: nat)
    requires fuel > 0 && node in p.nodes && node !in seen && p.nodes[node].Template?
    requires Harmless(p, w, fill) && Fills(p, w, fill) && Reached(p, node, seen)
    requires forall i :: 0 <= i < |p.nodes[node].spans| ==>
      SoundAt(p, w, fill, p.nodes[node].spans[i].expression, seen + {node}, fuel - 1)
    ensures SoundAt(p, w, fill, node, seen, fuel)
  {
    hide Matches, Harmless, Fills, SoundAt, Reached, ReachedOperand;
    var head, spans, next := p.nodes[node].head, p.nodes[node].spans, seen + {node};
    forall i | 0 <= i < |spans| ensures ReachedOperand(p, spans[i].expression, next) {
      ReachedPart(p, node, seen, spans[i].expression);
    }
    if EvalSpans(p, w, head, spans, fuel - 1).Some? {
      SpansMatch(p, w, fill, head, spans, next, fuel - 1);
    }
    TemplateSoundAt(p, w, fill, node, seen, fuel);
  }

  lemma TemplateSoundAt(p: Program, w: World, fill: Filler, node: nat, seen: set<nat>, fuel: nat)
    requires fuel > 0 && node in p.nodes && node !in seen && p.nodes[node].Template?
    requires var v := EvalSpans(p, w, p.nodes[node].head, p.nodes[node].spans, fuel - 1);
      v.Some? ==> SomeMatches(SpanForms(p, p.nodes[node].head, p.nodes[node].spans, seen + {node}), v.value.text, fill)
    ensures SoundAt(p, w, fill, node, seen, fuel)
  {
    hide Matches, Rendered, EvalSpans, SpanForms;
  }

  /** What soundness says about the texts the evaluator returns: one is the rendering of a matching form. */
  ghost predicate Sound(p: Program, w: World, fill: Filler, node: nat, fuel: nat) {
    var v := Eval(p, w, node, fuel);
    v.Some? && v.value.Str? && Resolve(p, node, {}) != [] ==>
      exists f :: f in Forms(p, node, {}) && RenderOf(p, f) in Resolve(p, node, {}) && Matches(f, v.value.text, fill)
  }

  lemma SoundTexts(p: Program, w: World, fill: Filler, node: nat, fuel: nat)
    ensures Sound(p, w, fill, node, fuel) <==> SoundAt(p, w, fill, node, {}, fuel)
  {
    hide Matches, Eval, Resolve, Forms, RenderOf;
    TextsAreRenderings(p, node, {});
  }

  lemma Soundness(p: Program, w: World, node: nat, fuel: nat)
    requires Harmless(p, w, AnyText())
    ensures Sound(p, w, AnyText(), node, fuel)
  {
    ReachedFirst(p, node);
    FormSoundness(p, w, AnyText(), node, {}, fuel);
    SoundTexts(p, w, AnyText(), node, fuel);
  }

  // ----- where nulls come from

  /** The node leads to a conditional with a null arm, without passing a concatenation or a seen node. */
  predicate NullReach(p: Program, node: nat, seen: set<nat>)
    decreases Unseen(p, seen)
  {
    node in p.nodes && node !in seen
    && (UnseenShrinks(p, seen, node);
        var next := seen + {node};
        match p.nodes[node]
        case Wrapped(inner) => NullReach(p, inner, next)
        case Reference(Some(initializer)) => NullReach(p, initializer, next)
        case Conditional(whenTrue, whenFalse) =>
          || NodeOf(p, whenTrue).NullKeyword? || NodeOf(p, whenFalse).NullKeyword?
          || NullReach(p, whenTrue, next) || NullReach(p, whenFalse, next)
        case _ => false)
  }

  /** A node whose value is not a string although it has texts is null, and leads to a null arm. */
  lemma {:induction false} OnlyNullArmsMislead(p: Program, w: World, node: nat, seen: set<nat>, fuel: nat)
    requires Eval(p, w, node, fuel).Some? && Eval(p, w, node, fuel).value.NotStr?
    requires Resolve(p, node, seen) != []
    ensures Eval(p, w, node, fuel) == Some(NULL) && NullReach(p, node, seen)
    decreases fuel
  {
    PassesOn(p, w, node, seen, fuel);
    var next := seen + {node};
    if p.nodes[node].Conditional? {
      var arm := if w.takes(node) then p.nodes[node].whenTrue else p.nodes[node].whenFalse;
      if !NodeOf(p, arm).NullKeyword? {
        ArmResolves(p, node, arm, seen);
        OnlyNullArmsMislead(p, w, arm, next, fuel - 1);
      }
      NullValue(p, w, arm, fuel - 1);
      ArmReached(p, node, arm, seen);
    } else {
      var inner := if p.nodes[node].Wrapped? then p.nodes[node].inner else p.nodes[node].initializer.value;
      OnlyNullArmsMislead(p, w, inner, next, fuel - 1);
    }
  }

  /** Only parentheses, constants and conditionals have texts and pass on a value that is no string. */
  lemma PassesOn(p: Program, w: World, node: nat, seen: set<nat>, fuel: nat)
    requires Eval(p, w, node, fuel).Some? && Eval(p, w, node, fuel).value.NotStr?
    requires Resolve(p, node, seen) != []
    ensures node in p.nodes && node !in seen && fuel > 0
    ensures p.nodes[node].Wrapped? || p.nodes[node].Conditional?
            || (p.nodes[node].Reference? && p.nodes[node].initializer.Some?)
  {
  }

  lemma ArmResolves(p: Program, node: nat, arm: nat, seen: set<nat>)
    requires node in p.nodes && node !in seen && p.nodes[node].Conditional? && Resolve(p, node, seen) != []
    requires arm == p.nodes[node].whenTrue || arm == p.nodes[node].whenFalse
    requires !NodeOf(p, arm).NullKeyword?
    ensures Resolve(p, arm, seen + {node}) != []
  {
    ConditionalStep(p, node, seen);
    hide Resolve;
  }

  lemma ArmReached(p: Program, node: nat, arm: nat, seen: set<nat>)
    requires node in p.nodes && node !in seen && p.nodes[node].Conditional?
    requires arm == p.nodes[node].whenTrue || arm == p.nodes[node].whenFalse
    requires NodeOf(p, arm).NullKeyword? || NullReach(p, arm, seen + {node})
    ensures NullReach(p, node, seen)
  {
  }

  /** A run that takes these arms on the path makes the node null. */
  ghost predicate MakesNull(p: Program, node: nat, yes: set<nat>, path: set<nat>, fuel: nat) {
    forall w: World :: (forall n :: n in path ==> (w.takes(n) <==> n in yes)) ==> Eval(p, w, node, fuel) == Some(NULL)
  }

  lemma {:induction false} NullPath(p: Program, node: nat, seen: set<nat>)
    returns (yes: set<nat>, path: set<nat>, fuel: nat)
    requires NullReach(p, node, seen)
    ensures path !! seen && MakesNull(p, node, yes, path, fuel)
    decreases Unseen(p, seen)
  {
    UnseenShrinks(p, seen, node);
    var next := seen + {node};
    match p.nodes[node]
    case Wrapped(inner) =>
      yes, path, fuel := NullPath(p, inner, next);
      fuel := fuel + 1;
    case Reference(Some(initializer)) =>
      yes, path, fuel := NullPath(p, initializer, next);
      fuel := fuel + 1;
    case Conditional(whenTrue, whenFalse) =>
      if NodeOf(p, whenTrue).NullKeyword? {
        yes, path, fuel := {node}, {node}, 2;
      } else if NodeOf(p, whenFalse).NullKeyword? {
        yes, path, fuel := {}, {node}, 2;
      } else if NullReach(p, whenTrue, next) {
        yes, path, fuel := NullPath(p, whenTrue, next);
        ThroughArm(p, node, true, yes, path, fuel);
        yes, path, fuel := yes + {node}, path + {node}, fuel + 1;
      } else {
        yes, path, fuel := NullPath(p, whenFalse, next);
        ThroughArm(p, node, false, yes, path, fuel);
        yes, path, fuel := yes - {node}, path + {node}, fuel + 1;
      }
  }

  lemma ThroughArm(p: Program, node: nat, arm: bool, yes: set<nat>, path: set<nat>, fuel: nat)
    requires node in p.nodes && p.nodes[node].Conditional? && node !in path
    requires MakesNull(p, if arm then p.nodes[node].whenTrue else p.nodes[node].whenFalse, yes, path, fuel)
    ensures MakesNull(p, node, if arm then yes + {node} else yes - {node}, path + {node}, fuel + 1)
  {
    var more := if arm then yes + {node} else yes - {node};
    forall w: World | forall n :: n in path + {node} ==> (w.takes(n) <==> n in more)
      ensures Eval(p, w, node, fuel + 1) == Some(NULL)
    {
      assert node in path + {node} && (w.takes(node) <==> arm);
      forall n | n in path ensures w.takes(n) <==> n in yes {
        assert n in path + {node};
      }
    }
  }

  /** Wherever a null may reach a concatenation as its operand's only text, "null" matches that text. */
  ghost predicate NullsForeseen(p: Program) {
    forall node, seen :: ReachedOperand(p, node, seen) && NullReach(p, node, seen) && |Resolve(p, node, seen)| == 1 ==>
      SomeMatches(Forms(p, node, seen), "null", AnyText())
  }

  /** No run surprises a concatenation exactly when every text of a nullable operand foresees null. */
  lemma HarmlessExactly(p: Program)
    ensures (forall w: World :: Harmless(p, w, AnyText())) <==> NullsForeseen(p)
  {
    hide Matches, SomeMatches, Forms, ReachedOperand;
    if forall w: World :: Harmless(p, w, AnyText()) {
      forall node, seen | ReachedOperand(p, node, seen) && NullReach(p, node, seen) && |Resolve(p, node, seen)| == 1
        ensures SomeMatches(Forms(p, node, seen), "null", AnyText())
      {
        var yes, path, fuel := NullPath(p, node, seen);
        var w := World((n: nat) => n in yes, (_: nat) => NULL);
        assert Eval(p, w, node, fuel) == Some(NULL);
        assert Harmless(p, w, AnyText());
        assert HarmlessAt(p, w, AnyText(), node, seen, fuel);
      }
    }
    if NullsForeseen(p) {
      forall w: World, node, seen, fuel: nat | ReachedOperand(p, node, seen)
        ensures HarmlessAt(p, w, AnyText(), node, seen, fuel)
      {
        var v := Eval(p, w, node, fuel);
        if v.Some? && v.value.NotStr? && |Resolve(p, node, seen)| == 1 {
          OnlyNullArmsMislead(p, w, node, seen, fuel);
        }
      }
    }
  }

  lemma {:induction false} FewerSeen(p: Program, node: nat, seen: set<nat>, fewer: set<nat>)
    requires NullReach(p, node, seen) && fewer <= seen
    ensures NullReach(p, node, fewer)
    decreases Unseen(p, seen)
  {
    UnseenShrinks(p, seen, node);
    var next := seen + {node};
    match p.nodes[node]
    case Wrapped(inner) => FewerSeen(p, inner, next, fewer + {node});
    case Reference(Some(initializer)) => FewerSeen(p, initializer, next, fewer + {node});
    case Conditional(whenTrue, whenFalse) =>
      if NullReach(p, whenTrue, next) {
        FewerSeen(p, whenTrue, next, fewer + {node});
      } else if NullReach(p, whenFalse, next) {
        FewerSeen(p, whenFalse, next, fewer + {node});
      }
  }

  /** No operand of a concatenation leads to a null arm. */
  ghost predicate Clean(p: Program) {
    forall node :: IsOperand(p, node) ==> !NullReach(p, node, {})
  }

  lemma SoundWithMore(p: Program, w: World, node: nat, fuel: nat, fill: Filler, more: Filler)
    requires Sound(p, w, fill, node, fuel) && forall n: nat, u :: fill(n, u) ==> more(n, u)
    ensures Sound(p, w, more, node, fuel)
  {
    hide Matches, Forms, RenderOf, Resolve, Eval;
    var v := Eval(p, w, node, fuel);
    if v.Some? && v.value.Str? && Resolve(p, node, {}) != [] {
      var f :| f in Forms(p, node, {}) && RenderOf(p, f) in Resolve(p, node, {}) && Matches(f, v.value.text, fill);
      MatchesMore(f, v.value.text, fill, more);
    }
  }

  /**
   A clean program is sound in every run, and exactly so: the run-time string is one of the forms
   with each gap filled by the text its own operand has in this run; all the more with any text.
   */
  lemma CleanIsSound(p: Program, w: World, node: nat, fuel: nat)
    requires Clean(p)
    ensures Sound(p, w, RunText(p, w), node, fuel) && Sound(p, w, AnyText(), node, fuel)
  {
    hide Matches, Forms, Sound, Reached, OperandOf;
    var fill := RunText(p, w);
    forall operand, seen, n: nat | ReachedOperand(p, operand, seen) ensures HarmlessAt(p, w, fill, operand, seen, n) {
      var v := Eval(p, w, operand, n);
      if v.Some? && v.value.NotStr? && |Resolve(p, operand, seen)| == 1 {
        OnlyNullArmsMislead(p, w, operand, seen, n);
        FewerSeen(p, operand, seen, {});
      }
    }
    assert Fills(p, w, fill);
    ReachedFirst(p, node);
    FormSoundness(p, w, fill, node, {}, fuel);
    SoundTexts(p, w, fill, node, fuel);
    SoundWithMore(p, w, node, fuel, fill, AnyText());
  }
}
