/** The lists that crafting compares: ingredient ids, recipes and the two tests that they match. */
module Crafting {
  import opened Common

  const MAX_CRAFT_INGREDIENTS := 1_024
  const MAX_KIND_INGREDIENTS := 64
  const MAX_SAFE_INTEGER := 9_007_199_254_740_991

  // ----- ingredient ids

  /** One slot of a request's array: a number, or anything else (a hole, an accessor, a string). */
  datatype Slot = Number(value: int) | Other

  predicate Distinct<T(==)>(s: seq<T>) {
    forall i, j :: 0 <= i < j < |s| ==> s[i] != s[j]
  }

  predicate PositiveInteger(slot: Slot) {
    slot.Number? && 0 < slot.value <= MAX_SAFE_INTEGER
  }

  ghost predicate ValidIdList(slots: seq<Slot>) {
    && |slots| <= 1_024
    && (forall i :: 0 <= i < |slots| ==> slots[i].Number? && 0 < slots[i].value <= 9_007_199_254_740_991)
    && Distinct(slots)
  }

  function IdOf(slot: Slot): nat {
    if PositiveInteger(slot) then slot.value else 0
  }

  function Ids(slots: seq<Slot>): seq<nat> {
    seq(|slots|, i requires 0 <= i < |slots| => IdOf(slots[i]))
  }

  /** `ingredientIdList`: the list itself, exactly when it is short, positive and without repeats. */
  method IngredientIdList(slots: seq<Slot>) returns (r: Option<seq<nat>>)
    ensures r.Some? <==> ValidIdList(slots)
    ensures r.Some? ==>
      && r.value == Ids(slots) && Distinct(r.value)
      && forall i :: 0 <= i < |slots| ==> slots[i] == Number(r.value[i])
  {
    if |slots| > MAX_CRAFT_INGREDIENTS { return None; }
    var ids: seq<nat> := [];
    var seen: set<nat> := {};
    var index := 0;
    while index < |slots|
      invariant 0 <= index <= |slots| && |ids| == index
      invariant forall i :: 0 <= i < index ==> PositiveInteger(slots[i]) && slots[i] == Number(ids[i])
      invariant forall id :: id in seen <==> id in ids
      invariant Distinct(ids)
    {
      var slot := slots[index];
      if !PositiveInteger(slot) { return None; }
      var id: nat := slot.value;
      if id in seen {
        var i :| 0 <= i < |ids| && ids[i] == id;
        assert slots[i] == slots[index];
        return None;
      }
      seen := seen + {id};
      ids := ids + [id];
      index := index + 1;
    }
    assert forall i, j :: 0 <= i < j < |slots| ==> slots[i] == Number(ids[i]) && slots[j] == Number(ids[j]);
    r := Some(ids);
  }

  // ----- recipes

  datatype Requirement = Requirement(kind: string, quantity: nat)

  /** A stored recipe line: its canonical kind name, if it has one, and its quantity, if an integer. */
  datatype Candidate = Candidate(kind: Option<string>, quantity: Option<int>)

  function Total(recipe: seq<Requirement>): nat {
    if recipe == [] then 0 else Total(recipe[..|recipe| - 1]) + recipe[|recipe| - 1].quantity
  }

  function Names(recipe: seq<Requirement>): set<string> {
    set i | 0 <= i < |recipe| :: recipe[i].kind
  }

  /** Distinct kinds, positive quantities and no more than the ingredients one craft may name. */
  ghost predicate WellFormed(recipe: seq<Requirement>) {
    && |recipe| <= 64
    && (forall i :: 0 <= i < |recipe| ==> recipe[i].quantity > 0)
    && (forall i, j :: 0 <= i < j < |recipe| ==> recipe[i].kind != recipe[j].kind)
    && Total(recipe) <= 1_024
  }

  predicate Reads(candidate: Candidate, requirement: Requirement) {
    candidate.kind == Some(requirement.kind) && candidate.quantity == Some(requirement.quantity)
  }

  predicate ReadsAs(candidates: seq<Candidate>, recipe: seq<Requirement>) {
    |candidates| == |recipe| && forall i | 0 <= i < |recipe| :: Reads(candidates[i], recipe[i])
  }

  lemma {:induction false} TotalGrows(recipe: seq<Requirement>, n: nat)
    requires n <= |recipe|
    ensures Total(recipe[..n]) <= Total(recipe)
  {
    if n < |recipe| {
      TotalGrows(recipe[..|recipe| - 1], n);
      assert recipe[..|recipe| - 1][..n] == recipe[..n];
    } else {
      assert recipe[..n] == recipe;
    }
  }

  /** Whether a line may follow the recipe read so far. */
  predicate MayFollow(candidate: Candidate, seen: set<string>, totalQuantity: nat) {
    && candidate.kind.Some? && candidate.quantity.Some? && 1 <= candidate.quantity.value <= MAX_CRAFT_INGREDIENTS
    && candidate.kind.value !in seen && totalQuantity + candidate.quantity.value <= MAX_CRAFT_INGREDIENTS
  }

  lemma FollowingIsWellFormed(recipe: seq<Requirement>, candidate: Candidate)
    requires WellFormed(recipe) && |recipe| < MAX_KIND_INGREDIENTS && MayFollow(candidate, Names(recipe), Total(recipe))
    ensures var longer := recipe + [Requirement(candidate.kind.value, candidate.quantity.value)];
      && WellFormed(longer)
      && Names(longer) == Names(recipe) + {candidate.kind.value}
      && Total(longer) == Total(recipe) + candidate.quantity.value
  {
    var longer := recipe + [Requirement(candidate.kind.value, candidate.quantity.value)];
    assert longer[..|recipe|] == recipe;
    forall i, j | 0 <= i < j < |longer| ensures longer[i].kind != longer[j].kind {
      if j == |recipe| {
        assert recipe[i].kind in Names(recipe);
      }
    }
    assert longer[|recipe|].kind in Names(longer);
    forall kind | kind in Names(recipe) ensures kind in Names(longer) {
      var i :| 0 <= i < |recipe| && recipe[i].kind == kind;
      assert longer[i].kind == kind;
    }
  }

  /** `parseKindRecipe`: the recipe that the stored lines spell, exactly when it is well formed. */
  method ParseKindRecipe(candidates: seq<Candidate>) returns (r: Option<seq<Requirement>>)
    ensures r.Some? ==> ReadsAs(candidates, r.value) && WellFormed(r.value)
    ensures r.None? ==> forall recipe :: ReadsAs(candidates, recipe) ==> !WellFormed(recipe)
  {
    hide Names, Total;
    if |candidates| > MAX_KIND_INGREDIENTS { return None; }
    NothingYet();
    hide WellFormed;
    var seen: set<string> := {};
    var recipe: seq<Requirement> := [];
    var totalQuantity: nat := 0;
    var k := 0;
    while k < |candidates|
      invariant 0 <= k <= |candidates| && |recipe| == k
      invariant WellFormed(recipe) && totalQuantity == Total(recipe) && seen == Names(recipe)
      invariant forall i :: 0 <= i < k ==> Reads(candidates[i], recipe[i])
    {
      var candidate := candidates[k];
      if !MayFollow(candidate, seen, totalQuantity) {
        forall other | ReadsAs(candidates, other) ensures !WellFormed(other) {
          NoOtherReading(candidates, recipe, other);
        }
        return None;
      }
      FollowingIsWellFormed(recipe, candidate);
      seen := seen + {candidate.kind.value};
      totalQuantity := totalQuantity + candidate.quantity.value;
      recipe := recipe + [Requirement(candidate.kind.value, candidate.quantity.value)];
      k := k + 1;
    }
    r := Some(recipe);
  }

  lemma NothingYet()
    ensures WellFormed([]) && Names([]) == {} && Total([]) == 0
  {
  }

  /** A line that cannot extend the recipe read so far spoils every reading of the list. */
  lemma NoOtherReading(candidates: seq<Candidate>, recipe: seq<Requirement>, other: seq<Requirement>)
    requires |recipe| < |candidates| && ReadsAs(candidates, other)
    requires forall i :: 0 <= i < |recipe| ==> Reads(candidates[i], recipe[i])
    requires !MayFollow(candidates[|recipe|], Names(recipe), Total(recipe))
    ensures !WellFormed(other)
  {
    var k := |recipe|;
    var c := candidates[k];
    assert Reads(c, other[k]);
    forall i | 0 <= i < k ensures other[i] == recipe[i] {
      assert Reads(candidates[i], recipe[i]) && Reads(candidates[i], other[i]);
    }
    assert other[..k] == recipe;
    TotalGrows(other, k + 1);
    assert other[..k + 1][..k] == recipe;
    assert c.kind.value in Names(recipe) ==> exists i :: 0 <= i < k && other[i].kind == other[k].kind;
  }

  // ----- the two tests

  function Lower(c: char): char {
    if 'A' <= c <= 'Z' then c - 'A' + 'a' else c
  }

  function LowerCase(s: string): string {
    seq(|s|, i requires 0 <= i < |s| => Lower(s[i]))
  }

  /** Two letters that differ at most in case. */
  predicate SameLetter(a: char, b: char) {
    || a == b
    || ('A' <= a <= 'Z' && b as int == a as int + 32)
    || ('A' <= b <= 'Z' && a as int == b as int + 32)
  }

  /** Lower case leaves no capital and forgets nothing but the case. */
  lemma SameNameExactly(a: string, b: string)
    ensures forall i :: 0 <= i < |a| ==> !('A' <= LowerCase(a)[i] <= 'Z')
    ensures LowerCase(a) == LowerCase(b) <==>
      |a| == |b| && forall i :: 0 <= i < |a| ==> SameLetter(a[i], b[i])
  {
    if LowerCase(a) == LowerCase(b) {
      assert |a| == |LowerCase(b)|;
      forall i | 0 <= i < |a| ensures SameLetter(a[i], b[i]) {
        assert LowerCase(a)[i] == LowerCase(b)[i];
      }
    }
  }

  /** The kinds that a recipe asks for, with their quantities. */
  function Bag(recipe: seq<Requirement>): multiset<string> {
    if recipe == [] then multiset{}
    else
      var last := recipe[|recipe| - 1];
      var rest := Bag(recipe[..|recipe| - 1]);
      rest[last.kind := rest[last.kind] + last.quantity]
  }

  /** The full join of required and counted kinds has no row whose two quantities differ. */
  predicate FullJoinAgrees(recipe: seq<Requirement>, kinds: multiset<string>) {
    && (forall i :: 0 <= i < |recipe| ==> recipe[i].quantity == kinds[recipe[i].kind])
    && (forall kind <- kinds :: exists i | 0 <= i < |recipe| :: recipe[i].kind == kind)
  }

  lemma {:induction false} BagCounts(recipe: seq<Requirement>, kind: string)
    requires forall i, j :: 0 <= i < j < |recipe| ==> recipe[i].kind != recipe[j].kind
    ensures kind !in Names(recipe) ==> Bag(recipe)[kind] == 0
    ensures forall i :: 0 <= i < |recipe| && recipe[i].kind == kind ==> Bag(recipe)[kind] == recipe[i].quantity
  {
    if recipe != [] {
      var n := |recipe| - 1;
      BagCounts(recipe[..n], kind);
      assert recipe[n].kind in Names(recipe);
      assert forall i :: 0 <= i < n ==> recipe[i] == recipe[..n][i];
      if recipe[n].kind == kind {
        assert kind !in Names(recipe[..n]);
      } else {
        assert kind in Names(recipe[..n]) ==> kind in Names(recipe);
      }
    }
  }

  /** For a well-formed recipe the join agrees exactly when the ingredients are the recipe. */
  lemma FullJoinIsEquality(recipe: seq<Requirement>, kinds: multiset<string>)
    requires WellFormed(recipe)
    ensures FullJoinAgrees(recipe, kinds) <==> kinds == Bag(recipe)
  {
    if FullJoinAgrees(recipe, kinds) {
      forall kind ensures kinds[kind] == Bag(recipe)[kind] {
        BagCounts(recipe, kind);
        if kind in Names(recipe) {
          var i :| 0 <= i < |recipe| && recipe[i].kind == kind;
        } else {
          assert kind in kinds ==> kind in Names(recipe);
        }
      }
      assert kinds == Bag(recipe);
    }
    if kinds == Bag(recipe) {
      forall i | 0 <= i < |recipe| ensures recipe[i].quantity == kinds[recipe[i].kind] {
        BagCounts(recipe, recipe[i].kind);
      }
      forall kind | kind in kinds ensures exists i | 0 <= i < |recipe| :: recipe[i].kind == kind {
        BagCounts(recipe, kind);
        assert kind in Names(recipe);
      }
    }
  }

  /** The lower-cased kinds of the ingredients, when each has one. */
  ghost predicate HaveKinds(ingredients: seq<Option<string>>) {
    forall i :: 0 <= i < |ingredients| ==> ingredients[i].Some?
  }

  function Kinds(ingredients: seq<Option<string>>): multiset<string> {
    if ingredients == [] then multiset{}
    else
      var last := ingredients[|ingredients| - 1];
      Kinds(ingredients[..|ingredients| - 1]) + (if last.Some? then multiset{LowerCase(last.value)} else multiset{})
  }

  /** The map holds the count of each kind, and no kind without one. */
  ghost predicate Tallies(actual: map<string, nat>, kinds: multiset<string>) {
    && (forall kind :: kind in actual <==> kind in kinds)
    && (forall kind :: kind in actual ==> actual[kind] == kinds[kind])
  }

  lemma OneMore(ingredients: seq<Option<string>>, k: nat, actual: map<string, nat>)
    requires k < |ingredients| && HaveKinds(ingredients[..k]) && Tallies(actual, Kinds(ingredients[..k]))
    requires ingredients[k].Some?
    ensures HaveKinds(ingredients[..k + 1])
    ensures var kind := LowerCase(ingredients[k].value);
      Tallies(actual[kind := (if kind in actual then actual[kind] else 0) + 1], Kinds(ingredients[..k + 1]))
  {
    assert ingredients[..k + 1][..k] == ingredients[..k];
    hide LowerCase;
  }

  /** Each requirement has its count. */
  predicate Meets(recipe: seq<Requirement>, actual: map<string, nat>) {
    forall i | 0 <= i < |recipe| :: recipe[i].kind in actual && actual[recipe[i].kind] == recipe[i].quantity
  }

  /**
   `exactRecipeMatch`: counts the kinds, then compares the number of kinds and each count. For
   a well-formed recipe that is exactly equality of the two multisets.
   */
  method ExactRecipeMatch(recipe: seq<Requirement>, ingredients: seq<Option<string>>) returns (r: bool)
    requires WellFormed(recipe)
    ensures r <==> HaveKinds(ingredients) && Kinds(ingredients) == Bag(recipe)
  {
    hide WellFormed, Bag, Kinds, LowerCase, Tallies;
    var actual: map<string, nat> := map[];
    NothingTallied();
    var k := 0;
    assert ingredients[..k] == [];
    while k < |ingredients|
      invariant 0 <= k <= |ingredients|
      invariant HaveKinds(ingredients[..k]) && Tallies(actual, Kinds(ingredients[..k]))
    {
      if ingredients[k].None? { return false; }
      OneMore(ingredients, k, actual);
      var kind := LowerCase(ingredients[k].value);
      actual := actual[kind := (if kind in actual then actual[kind] else 0) + 1];
      k := k + 1;
    }
    assert ingredients[..k] == ingredients;
    CountsDecide(recipe, actual, Kinds(ingredients));
    if |actual| != |recipe| { return false; }
    r := Meets(recipe, actual);
  }

  lemma NothingTallied()
    ensures Tallies(map[], Kinds([]))
  {
  }

  lemma {:induction false} NamesCounted(recipe: seq<Requirement>)
    requires forall i, j :: 0 <= i < j < |recipe| ==> recipe[i].kind != recipe[j].kind
    ensures |Names(recipe)| == |recipe|
  {
    if recipe != [] {
      var n := |recipe| - 1;
      NamesCounted(recipe[..n]);
      assert Names(recipe) == Names(recipe[..n]) + {recipe[n].kind};
    }
  }

  lemma MeetsAll(recipe: seq<Requirement>, actual: map<string, nat>, kinds: multiset<string>)
    requires WellFormed(recipe) && Tallies(actual, kinds) && Meets(recipe, actual) && |actual| == |recipe|
    ensures FullJoinAgrees(recipe, kinds)
  {
    NamesCounted(recipe);
    SameSize(Names(recipe), actual.Keys);
    forall kind | kind in kinds ensures exists i | 0 <= i < |recipe| :: recipe[i].kind == kind {
      assert kind in Names(recipe);
    }
  }

  lemma AllMet(recipe: seq<Requirement>, actual: map<string, nat>, kinds: multiset<string>)
    requires WellFormed(recipe) && Tallies(actual, kinds) && FullJoinAgrees(recipe, kinds)
    ensures Meets(recipe, actual) && |actual| == |recipe|
  {
    NamesCounted(recipe);
    forall i | 0 <= i < |recipe| ensures recipe[i].kind in actual && actual[recipe[i].kind] == recipe[i].quantity {
      assert recipe[i].quantity == kinds[recipe[i].kind];
    }
    assert actual.Keys == Names(recipe);
  }

  /** As many kinds as requirements, each with its quantity: no other kind can be there. */
  lemma CountsDecide(recipe: seq<Requirement>, actual: map<string, nat>, kinds: multiset<string>)
    requires WellFormed(recipe) && Tallies(actual, kinds)
    ensures |actual| == |recipe| && Meets(recipe, actual) <==> kinds == Bag(recipe)
  {
    hide Bag, Tallies, Meets, WellFormed;
    FullJoinIsEquality(recipe, kinds);
    if FullJoinAgrees(recipe, kinds) {
      AllMet(recipe, actual, kinds);
    } else if |actual| == |recipe| && Meets(recipe, actual) {
      MeetsAll(recipe, actual, kinds);
    }
  }

  lemma SameSize(small: set<string>, large: set<string>)
    requires small <= large && |small| == |large|
    ensures small == large
  {
    assert |large - small| == 0;
  }
}
