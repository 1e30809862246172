/**
 Conditionals over literals, null arms and unknown leaves, nested in any way: which texts the
 static evaluator gives for them, and when it gives none.
 */
module StaticChoices {
  import opened Common
  import opened StaticTexts
  import opened StaticNulls

  /** A tree of conditionals without cycles, in which no conditional has two null arms. */
  ghost predicate Choice(p: Program, rank: Rank, node: nat)
    decreases rank(node), 0
  {
    node in p.nodes &&
    match p.nodes[node]
    case Literal(_) => true
    case Opaque => true
    case Reference(None) => true
    case Wrapped(inner) => rank(inner) < rank(node) && Choice(p, rank, inner)
    case Reference(Some(initializer)) => rank(initializer) < rank(node) && Choice(p, rank, initializer)
    case Conditional(whenTrue, whenFalse) =>
      && rank(whenTrue) < rank(node) && rank(whenFalse) < rank(node)
      && (NodeOf(p, whenTrue).NullKeyword? || Choice(p, rank, whenTrue))
      && (NodeOf(p, whenFalse).NullKeyword? || Choice(p, rank, whenFalse))
      && !(NodeOf(p, whenTrue).NullKeyword? && NodeOf(p, whenFalse).NullKeyword?)
    case _ => false
  }

  /** Some arms lead to a leaf whose value only the run knows. */
  ghost predicate Unknown(p: Program, rank: Rank, node: nat)
    requires Choice(p, rank, node)
    decreases rank(node), 0
  {
    match p.nodes[node]
    case Literal(_) => false
    case Wrapped(inner) => Unknown(p, rank, inner)
    case Reference(Some(initializer)) => Unknown(p, rank, initializer)
    case Conditional(whenTrue, whenFalse) =>
      || (!NodeOf(p, whenTrue).NullKeyword? && Unknown(p, rank, whenTrue))
      || (!NodeOf(p, whenFalse).NullKeyword? && Unknown(p, rank, whenFalse))
    case _ => true
  }

  lemma {:induction false} NoTextWhenUnknown(p: Program, rank: Rank, node: nat, seen: set<nat>)
    requires Choice(p, rank, node) && Above(rank, seen, node)
    ensures Resolve(p, node, seen) == [] <==> Unknown(p, rank, node)
    decreases rank(node)
  {
    var next := seen + {node};
    match p.nodes[node]
    case Wrapped(inner) => NoTextWhenUnknown(p, rank, inner, next);
    case Reference(Some(initializer)) => NoTextWhenUnknown(p, rank, initializer, next);
    case Conditional(whenTrue, whenFalse) =>
      ConditionalStep(p, node, seen);
      if !NodeOf(p, whenTrue).NullKeyword? {
        NoTextWhenUnknown(p, rank, whenTrue, next);
      }
      if !NodeOf(p, whenFalse).NullKeyword? {
        NoTextWhenUnknown(p, rank, whenFalse, next);
      }
    case _ =>
  }

  /** The run takes these arms wherever the node can lead. */
  ghost predicate Follows(w: World, rank: Rank, node: nat, yes: set<nat>) {
    forall n :: rank(n) <= rank(node) ==> (w.takes(n) <==> n in yes)
  }

  lemma FollowsArm(w: World, rank: Rank, node: nat, arm: nat, takes: bool, yes: set<nat>)
    requires rank(arm) < rank(node)
    requires Follows(w, rank, node, if takes then yes + {node} else yes - {node})
    ensures Follows(w, rank, arm, yes) && w.takes(node) == takes
  {
  }

  /** Arms that lead to an unknown leaf. */
  lemma {:induction false} WayToLeaf(p: Program, rank: Rank, node: nat) returns (yes: set<nat>, leaf: nat)
    requires Choice(p, rank, node) && Unknown(p, rank, node)
    ensures forall w :: Follows(w, rank, node, yes) ==> Eval(p, w, node, rank(node) + 1) == Some(w.value(leaf))
    decreases rank(node)
  {
    match p.nodes[node]
    case Wrapped(inner) =>
      yes, leaf := WayToLeaf(p, rank, inner);
      EnoughFuel(p, inner, rank(inner) + 1, rank(node));
    case Reference(Some(initializer)) =>
      yes, leaf := WayToLeaf(p, rank, initializer);
      EnoughFuel(p, initializer, rank(initializer) + 1, rank(node));
    case Conditional(whenTrue, whenFalse) =>
      var takes := !NodeOf(p, whenTrue).NullKeyword? && Unknown(p, rank, whenTrue);
      var arm := if takes then whenTrue else whenFalse;
      var below: set<nat>;
      below, leaf := WayToLeaf(p, rank, arm);
      EnoughFuel(p, arm, rank(arm) + 1, rank(node));
      yes := if takes then below + {node} else below - {node};
      forall w | Follows(w, rank, node, yes) ensures Eval(p, w, node, rank(node) + 1) == Some(w.value(leaf)) {
        FollowsArm(w, rank, node, arm, takes, below);
      }
    case _ => yes, leaf := {}, node;
  }

  lemma TextOfArm(p: Program, node: nat, seen: set<nat>, text: string) returns (takes: bool)
    requires node in p.nodes && node !in seen && p.nodes[node].Conditional? && text in Resolve(p, node, seen)
    ensures var arm := if takes then p.nodes[node].whenTrue else p.nodes[node].whenFalse;
      !NodeOf(p, arm).NullKeyword? && text in Resolve(p, arm, seen + {node})
  {
    ConditionalStep(p, node, seen);
    NoNullText(p, p.nodes[node].whenTrue, seen + {node});
    NoNullText(p, p.nodes[node].whenFalse, seen + {node});
    hide Resolve;
    takes := text in Resolve(p, p.nodes[node].whenTrue, seen + {node});
  }

  lemma NoNullText(p: Program, node: nat, seen: set<nat>)
    ensures NodeOf(p, node).NullKeyword? ==> Resolve(p, node, seen) == []
  {
  }

  /** Parentheses and constants pass a text on. */
  lemma Passes(p: Program, rank: Rank, node: nat, inner: nat, yes: set<nat>, text: string)
    requires rank(inner) < rank(node)
    requires NodeOf(p, node) == Wrapped(inner) || NodeOf(p, node) == Reference(Some(inner))
    requires forall w :: Follows(w, rank, inner, yes) ==> Eval(p, w, inner, rank(inner) + 1) == Some(Str(text))
    ensures forall w :: Follows(w, rank, node, yes) ==> Eval(p, w, node, rank(node) + 1) == Some(Str(text))
  {
    EnoughFuel(p, inner, rank(inner) + 1, rank(node));
    forall w | Follows(w, rank, node, yes) ensures Eval(p, w, node, rank(node) + 1) == Some(Str(text)) {
      assert Follows(w, rank, inner, yes);
    }
  }

  /** So does a conditional that takes the arm. */
  lemma Chosen(p: Program, rank: Rank, node: nat, takes: bool, below: set<nat>, text: string) returns (yes: set<nat>)
    requires NodeOf(p, node).Conditional?
    requires var arm := if takes then NodeOf(p, node).whenTrue else NodeOf(p, node).whenFalse;
      && rank(arm) < rank(node)
      && forall w :: Follows(w, rank, arm, below) ==> Eval(p, w, arm, rank(arm) + 1) == Some(Str(text))
    ensures forall w :: Follows(w, rank, node, yes) ==> Eval(p, w, node, rank(node) + 1) == Some(Str(text))
  {
    var arm := if takes then NodeOf(p, node).whenTrue else NodeOf(p, node).whenFalse;
    EnoughFuel(p, arm, rank(arm) + 1, rank(node));
    yes := if takes then below + {node} else below - {node};
    forall w | Follows(w, rank, node, yes) ensures Eval(p, w, node, rank(node) + 1) == Some(Str(text)) {
      FollowsArm(w, rank, node, arm, takes, below);
    }
  }

  /** Arms that lead to a text of the evaluator. */
  lemma {:induction false} WayToText(p: Program, rank: Rank, node: nat, seen: set<nat>, text: string)
    returns (yes: set<nat>)
    requires Choice(p, rank, node) && Above(rank, seen, node) && text in Resolve(p, node, seen)
    ensures forall w :: Follows(w, rank, node, yes) ==> Eval(p, w, node, rank(node) + 1) == Some(Str(text))
    decreases rank(node)
  {
    var next := seen + {node};
    match p.nodes[node]
    case Literal(_) =>
      yes := {};
    case Wrapped(inner) =>
      yes := WayToText(p, rank, inner, next, text);
      Passes(p, rank, node, inner, yes, text);
    case Reference(Some(initializer)) =>
      yes := WayToText(p, rank, initializer, next, text);
      Passes(p, rank, node, initializer, yes, text);
    case Conditional(whenTrue, whenFalse) =>
      var takes := TextOfArm(p, node, seen, text);
      var arm := if takes then whenTrue else whenFalse;
      var below := WayToText(p, rank, arm, next, text);
      yes := Chosen(p, rank, node, takes, below, text);
    case _ =>
  }

  /** More fuel does not change a value. */
  lemma EnoughFuel(p: Program, node: nat, fuel: nat, more: nat)
    requires fuel <= more
    ensures forall w :: Eval(p, w, node, fuel).Some? ==> Eval(p, w, node, more) == Eval(p, w, node, fuel)
  {
    forall w | Eval(p, w, node, fuel).Some? ensures Eval(p, w, node, more) == Eval(p, w, node, fuel) {
      MoreFuel(p, w, node, fuel, more);
    }
  }

  lemma {:induction false} MoreFuel(p: Program, w: World, node: nat, fuel: nat, more: nat)
    requires fuel <= more && Eval(p, w, node, fuel).Some?
    ensures Eval(p, w, node, more) == Eval(p, w, node, fuel)
    decreases fuel, 0
  {
    match NodeOf(p, node)
    case Wrapped(inner) => MoreFuel(p, w, inner, fuel - 1, more - 1);
    case Reference(Some(initializer)) => MoreFuel(p, w, initializer, fuel - 1, more - 1);
    case Conditional(whenTrue, whenFalse) =>
      MoreFuel(p, w, if w.takes(node) then whenTrue else whenFalse, fuel - 1, more - 1);
    case Plus(left, right) =>
      MoreFuel(p, w, left, fuel - 1, more - 1);
      MoreFuel(p, w, right, fuel - 1, more - 1);
    case Template(head, spans) => MoreSpanFuel(p, w, head, spans, fuel - 1, more - 1);
    case _ =>
  }

  lemma {:induction false} MoreSpanFuel(p: Program, w: World, head: string, spans: seq<Span>, fuel: nat, more: nat)
    requires fuel <= more && EvalSpans(p, w, head, spans, fuel).Some?
    ensures EvalSpans(p, w, head, spans, more) == EvalSpans(p, w, head, spans, fuel)
    decreases fuel, 1, |spans|
  {
    if spans != [] {
      MoreSpanFuel(p, w, head, spans[..|spans| - 1], fuel, more);
      MoreFuel(p, w, spans[|spans| - 1].expression, fuel, more);
    }
  }

  /** A string of some run is among the texts. */
  lemma {:induction false} TextsCover(p: Program, rank: Rank, node: nat, seen: set<nat>, w: World, fuel: nat)
    requires Choice(p, rank, node) && Above(rank, seen, node) && !Unknown(p, rank, node)
    requires Eval(p, w, node, fuel).Some? && Eval(p, w, node, fuel).value.Str?
    ensures Eval(p, w, node, fuel).value.text in Resolve(p, node, seen)
    decreases rank(node)
  {
    var next := seen + {node};
    match p.nodes[node]
    case Literal(_) =>
    case Wrapped(inner) => TextsCover(p, rank, inner, next, w, fuel - 1);
    case Reference(Some(initializer)) => TextsCover(p, rank, initializer, next, w, fuel - 1);
    case Conditional(whenTrue, whenFalse) =>
      NoTextWhenUnknown(p, rank, node, seen);
      var arm := if w.takes(node) then whenTrue else whenFalse;
      TextsCover(p, rank, arm, next, w, fuel - 1);
      ArmTextKept(p, node, seen, arm, Eval(p, w, arm, fuel - 1).value.text);
  }

  lemma ArmTextKept(p: Program, node: nat, seen: set<nat>, arm: nat, text: string)
    requires node in p.nodes && node !in seen && p.nodes[node].Conditional? && Resolve(p, node, seen) != []
    requires arm == p.nodes[node].whenTrue || arm == p.nodes[node].whenFalse
    requires !NodeOf(p, arm).NullKeyword? && text in Resolve(p, arm, seen + {node})
    ensures text in Resolve(p, node, seen)
  {
    ConditionalStep(p, node, seen);
    NoNullText(p, p.nodes[node].whenTrue, seen + {node});
    NoNullText(p, p.nodes[node].whenFalse, seen + {node});
    hide Resolve;
  }

  /** The strings that some run gives a node. */
  ghost predicate Prints(p: Program, node: nat, text: string) {
    exists w, fuel: nat :: Eval(p, w, node, fuel) == Some(Str(text))
  }

  /** Two runs that take the same arms give the node different values. */
  ghost predicate Undetermined(p: Program, node: nat) {
    exists takes: nat -> bool, one: nat -> Value, other: nat -> Value, fuel: nat ::
      Eval(p, World(takes, one), node, fuel) != Eval(p, World(takes, other), node, fuel)
  }

  lemma {:induction false} ArmsDetermine(
    p: Program, rank: Rank, node: nat, takes: nat -> bool, one: nat -> Value, other: nat -> Value, fuel: nat)
    requires Choice(p, rank, node) && !Unknown(p, rank, node)
    ensures Eval(p, World(takes, one), node, fuel) == Eval(p, World(takes, other), node, fuel)
    decreases rank(node)
  {
    if fuel > 0 {
      match p.nodes[node]
      case Literal(_) =>
      case Wrapped(inner) => ArmsDetermine(p, rank, inner, takes, one, other, fuel - 1);
      case Reference(Some(initializer)) => ArmsDetermine(p, rank, initializer, takes, one, other, fuel - 1);
      case Conditional(whenTrue, whenFalse) =>
        var arm := if takes(node) then whenTrue else whenFalse;
        if !NodeOf(p, arm).NullKeyword? {
          ArmsDetermine(p, rank, arm, takes, one, other, fuel - 1);
        }
    }
  }

  /** The evaluator gives no text exactly when the arms alone do not decide the value. */
  lemma NoTextExactly(p: Program, rank: Rank, node: nat)
    requires Choice(p, rank, node)
    ensures Resolve(p, node, {}) == [] <==> Undetermined(p, node)
  {
    NoTextWhenUnknown(p, rank, node, {});
    if Unknown(p, rank, node) {
      var yes, leaf := WayToLeaf(p, rank, node);
      var takes, one, other := (n: nat) => n in yes, (_: nat) => NULL, (_: nat) => Str("");
      assert Follows(World(takes, one), rank, node, yes) && Follows(World(takes, other), rank, node, yes);
      assert Eval(p, World(takes, one), node, rank(node) + 1) != Eval(p, World(takes, other), node, rank(node) + 1);
    } else {
      forall takes: nat -> bool, one: nat -> Value, other: nat -> Value, fuel: nat
        ensures Eval(p, World(takes, one), node, fuel) == Eval(p, World(takes, other), node, fuel)
      {
        ArmsDetermine(p, rank, node, takes, one, other, fuel);
      }
    }
  }

  /** Otherwise its texts are the strings that the runs give, no fewer and no more. */
  lemma TextsExactly(p: Program, rank: Rank, node: nat, text: string)
    requires Choice(p, rank, node) && !Undetermined(p, node)
    ensures text in Resolve(p, node, {}) <==> Prints(p, node, text)
  {
    NoTextExactly(p, rank, node);
    NoTextWhenUnknown(p, rank, node, {});
    if text in Resolve(p, node, {}) {
      var yes := WayToText(p, rank, node, {}, text);
      var w := World((n: nat) => n in yes, (_: nat) => NULL);
      assert Follows(w, rank, node, yes);
    }
    if Prints(p, node, text) {
      var w, fuel: nat :| Eval(p, w, node, fuel) == Some(Str(text));
      TextsCover(p, rank, node, {}, w, fuel);
    }
  }

  // ----- each text is given once, in any program

  ghost predicate Distinct(texts: seq<string>) {
    forall i, j :: 0 <= i < j < |texts| ==> texts[i] != texts[j]
  }

  lemma {:induction false} UniqueDistinct(values: seq<string>)
    ensures Distinct(Unique(values))
  {
    if values != [] {
      UniqueDistinct(values[..|values| - 1]);
    }
  }

  lemma {:induction false} TextsDistinct(p: Program, node: nat, seen: set<nat>)
    ensures Distinct(Resolve(p, node, seen))
    decreases Unseen(p, seen)
  {
    if node in p.nodes && node !in seen {
      UnseenShrinks(p, seen, node);
      var next := seen + {node};
      match p.nodes[node]
      case Wrapped(inner) => TextsDistinct(p, inner, next);
      case Reference(Some(initializer)) => TextsDistinct(p, initializer, next);
      case Conditional(whenTrue, whenFalse) =>
        ConditionalStep(p, node, seen);
        TextsDistinct(p, whenTrue, next);
        TextsDistinct(p, whenFalse, next);
        UniqueDistinct(Resolve(p, whenTrue, next) + Resolve(p, whenFalse, next));
      case Plus(left, right) =>
        UniqueDistinct(
          Appended(Values(p, left, Resolve(p, left, next)), Values(p, right, Resolve(p, right, next)), ""));
      case Template(head, spans) => UniqueDistinct(Rendered(p, head, spans, next));
      case _ =>
    }
  }
}
