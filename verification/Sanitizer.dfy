/**
 The value sanitizer of src/credential-safety.ts. A value is a finite tree; each array and
 object carries the identity of the JavaScript object it stands for, so that a value reached
 twice shows, and whether it is dense or plain. An object is its keys and, in the same order,
 their values.
 */
module Sanitizer {
  import opened Common
  import opened CredentialText

  const MAX_DEPTH := 32
  const MAX_NODES := 20_000

  datatype Value =
    | Text(text: string)
    | Scalar(n: int)
    | Array(id: nat, dense: bool, items: seq<Value>)
    | Object(id: nat, plain: bool, keys: seq<string>, items: seq<Value>)

  /** What the traversal puts where it gives up. */
  const NULL := Scalar(0)

  datatype Walk = Walk(nodes: nat, changed: bool, uncertain: bool, seen: set<nat>)

  predicate KeysClean(keys: seq<string>) {
    forall i | 0 <= i < |keys| :: !Contains(keys[i])
  }

  /** A dense array, or a plain object without a key like a credential. */
  predicate Proper(value: Value) {
    match value
    case Array(_, dense, _) => dense
    case Object(_, plain, keys, _) => plain && KeysClean(keys)
    case _ => true
  }

  function WithItems(value: Value, items: seq<Value>): Value {
    match value
    case Array(id, dense, _) => Array(id, dense, items)
    case Object(id, plain, keys, _) => Object(id, plain, keys, items)
    case _ => value
  }

  predicate IsTree(value: Value) {
    value.Array? || value.Object?
  }

  // ----- the traversal

  function Sanitize(value: Value, depth: nat, w: Walk): (r: (Value, Walk))
    decreases value, 1
  {
    var counted := w.(nodes := w.nodes + 1);
    if depth > MAX_DEPTH || counted.nodes > MAX_NODES then (NULL, counted.(uncertain := true))
    else if value.Text? then
      if Contains(value.text) then (Text(REDACTION), counted.(changed := true)) else (value, counted)
    else if value.Scalar? then (value, counted)
    else if value.id in w.seen then (NULL, counted.(uncertain := true))
    else
      var entered := counted.(seen := counted.seen + {value.id});
      if !Proper(value) then (NULL, entered.(uncertain := true))
      else
        var (items, left) := SanitizeAll(value.items, depth + 1, entered);
        (WithItems(value, items), left)
  }

  function SanitizeAll(items: seq<Value>, depth: nat, w: Walk): (r: (seq<Value>, Walk))
    ensures |r.0| == |items|
    decreases items, 0
  {
    if items == [] then ([], w)
    else
      var n := |items| - 1;
      var (values, middle) := SanitizeAll(items[..n], depth, w);
      var (value, left) := Sanitize(items[n], depth, middle);
      (values + [value], left)
  }

  datatype Safety = Safety(value: Value, changed: bool, withheld: bool)

  const START := Walk(0, false, false, {})

  function SanitizePublic(value: Value): Safety {
    var (sanitized, w) := Sanitize(value, 0, START);
    if w.uncertain then Safety(Text(WITHHELD), true, true) else Safety(sanitized, w.changed, false)
  }

  /** The mutable state of one traversal, as the source keeps it. */
  class TraversalState {
    var nodes: nat
    var changed: bool
    var uncertain: bool
    var seen: set<nat>

    constructor ()
      ensures State() == START
    {
      nodes, changed, uncertain, seen := 0, false, false, {};
    }

    function State(): Walk
      reads this
    {
      Walk(nodes, changed, uncertain, seen)
    }

    /** `sanitizeValue` */
    method SanitizeValue(value: Value, depth: nat) returns (r: Value)
      modifies this
      ensures (r, State()) == Sanitize(value, depth, old(State()))
      decreases value, 1
    {
      hide Contains, KeysClean;
      nodes := nodes + 1;
      if depth > MAX_DEPTH || nodes > MAX_NODES {
        uncertain := true;
        return NULL;
      }
      if value.Text? {
        if !Contains(value.text) { return value; }
        changed := true;
        return Text(REDACTION);
      }
      if value.Scalar? { return value; }
      if value.id in seen {
        uncertain := true;
        return NULL;
      }
      seen := seen + {value.id};
      if value.Array? {
        if !value.dense {
          uncertain := true;
          return NULL;
        }
      } else if !value.plain || !KeysClean(value.keys) {
        uncertain := true;
        return NULL;
      }
      var items := SanitizeItems(value.items, depth + 1);
      r := WithItems(value, items);
    }

    /** The map over the elements of an array or the values of an object. */
    method SanitizeItems(items: seq<Value>, depth: nat) returns (values: seq<Value>)
      modifies this
      ensures (values, State()) == SanitizeAll(items, depth, old(State()))
      decreases items, 0
    {
      values := [];
      var k := 0;
      assert items[..0] == [];
      while k < |items|
        invariant 0 <= k <= |items|
        invariant (values, State()) == SanitizeAll(items[..k], depth, old(State()))
      {
        assert items[..k + 1][..k] == items[..k];
        var item := SanitizeValue(items[k], depth);
        values := values + [item];
        k := k + 1;
      }
      assert items[..k] == items;
    }
  }

  /** `sanitizePublicValue` */
  method SanitizePublicValue(value: Value) returns (r: Safety)
    ensures r == SanitizePublic(value)
  {
    var state := new TraversalState();
    var sanitized := state.SanitizeValue(value, 0);
    if state.uncertain { return Safety(Text(WITHHELD), true, true); }
    r := Safety(sanitized, state.changed, false);
  }

  // ----- what a value holds

  /** The value with every string that contains a credential replaced, and nothing else. */
  function Redacted(value: Value): Value
    decreases value, 1
  {
    if value.Text? then if Contains(value.text) then Text(REDACTION) else value
    else if value.Scalar? then value
    else WithItems(value, RedactedAll(value.items))
  }

  function RedactedAll(items: seq<Value>): (r: seq<Value>)
    ensures |r| == |items|
    decreases items, 0
  {
    if items == [] then [] else RedactedAll(items[..|items| - 1]) + [Redacted(items[|items| - 1])]
  }

  /** Whether any string in the value contains a credential. */
  predicate Leaks(value: Value)
    decreases value, 1
  {
    if value.Text? then Contains(value.text) else IsTree(value) && LeaksAny(value.items)
  }

  predicate LeaksAny(items: seq<Value>)
    decreases items, 0
  {
    items != [] && (LeaksAny(items[..|items| - 1]) || Leaks(items[|items| - 1]))
  }

  /** Every array dense, every object plain, no key like a credential. */
  predicate WellMade(value: Value)
    decreases value, 1
  {
    IsTree(value) ==> Proper(value) && WellMadeAll(value.items)
  }

  predicate WellMadeAll(items: seq<Value>)
    decreases items, 0
  {
    items == [] || (WellMadeAll(items[..|items| - 1]) && WellMade(items[|items| - 1]))
  }

  function Height(value: Value): nat
    decreases value, 1
  {
    if IsTree(value) && value.items != [] then 1 + HeightAll(value.items) else 0
  }

  function HeightAll(items: seq<Value>): nat
    decreases items, 0
  {
    if items == [] then 0 else Max(HeightAll(items[..|items| - 1]), Height(items[|items| - 1]))
  }

  function Size(value: Value): nat
    decreases value, 1
  {
    1 + (if IsTree(value) then SizeAll(value.items) else 0)
  }

  function SizeAll(items: seq<Value>): nat
    decreases items, 0
  {
    if items == [] then 0 else SizeAll(items[..|items| - 1]) + Size(items[|items| - 1])
  }

  /** The identities of the arrays and objects, in the order they are reached. */
  function Ids(value: Value): seq<nat>
    decreases value, 1
  {
    if IsTree(value) then [value.id] + IdsAll(value.items) else []
  }

  function IdsAll(items: seq<Value>): seq<nat>
    decreases items, 0
  {
    if items == [] then [] else IdsAll(items[..|items| - 1]) + Ids(items[|items| - 1])
  }

  function SetOf(ids: seq<nat>): set<nat> {
    set id | id in ids
  }

  ghost predicate Fresh(ids: seq<nat>, seen: set<nat>) {
    && (forall i, j :: 0 <= i < j < |ids| ==> ids[i] != ids[j])
    && (forall i :: 0 <= i < |ids| ==> ids[i] !in seen)
  }

  /** What lets a walk at this depth go through the value without giving up. */
  ghost predicate Fits(value: Value, depth: nat, w: Walk) {
    depth + Height(value) <= 32 && w.nodes + Size(value) <= 20_000 && WellMade(value)
    && Fresh(Ids(value), w.seen)
  }

  ghost predicate FitsAll(items: seq<Value>, depth: nat, w: Walk) {
    && (items != [] ==> depth + HeightAll(items) <= MAX_DEPTH && w.nodes + SizeAll(items) <= MAX_NODES)
    && WellMadeAll(items) && Fresh(IdsAll(items), w.seen)
  }

  /** Where a walk arrives that goes through. */
  function Through(value: Value, w: Walk): Walk {
    Walk(w.nodes + Size(value), w.changed || Leaks(value), w.uncertain, w.seen + SetOf(Ids(value)))
  }

  function ThroughAll(items: seq<Value>, w: Walk): Walk {
    Walk(w.nodes + SizeAll(items), w.changed || LeaksAny(items), w.uncertain, w.seen + SetOf(IdsAll(items)))
  }

  // ----- uncertainty stays

  lemma {:induction false} UncertainStays(value: Value, depth: nat, w: Walk)
    ensures w.uncertain ==> Sanitize(value, depth, w).1.uncertain
    decreases value, 1
  {
    hide Contains;
    if IsTree(value) && value.id !in w.seen {
      UncertainStaysAll(value.items, depth + 1, w.(nodes := w.nodes + 1, seen := w.seen + {value.id}));
    }
  }

  lemma {:induction false} UncertainStaysAll(items: seq<Value>, depth: nat, w: Walk)
    ensures w.uncertain ==> SanitizeAll(items, depth, w).1.uncertain
    decreases items, 0
  {
    if items != [] {
      var n := |items| - 1;
      UncertainStaysAll(items[..n], depth, w);
      UncertainStays(items[n], depth, SanitizeAll(items[..n], depth, w).1);
    }
  }

  // ----- a value goes through exactly when it fits

  lemma FreshSplits(a: seq<nat>, b: seq<nat>, seen: set<nat>)
    ensures Fresh(a + b, seen) <==> Fresh(a, seen) && Fresh(b, seen + SetOf(a))
    ensures SetOf(a + b) == SetOf(a) + SetOf(b)
  {
    if Fresh(a + b, seen) {
      forall i, j | 0 <= i < j < |a| ensures a[i] != a[j] {
        assert (a + b)[i] == a[i] && (a + b)[j] == a[j];
      }
      forall i | 0 <= i < |a| ensures a[i] !in seen {
        assert (a + b)[i] == a[i];
      }
      forall i, j | 0 <= i < j < |b| ensures b[i] != b[j] {
        assert (a + b)[|a| + i] == b[i] && (a + b)[|a| + j] == b[j];
      }
      forall i | 0 <= i < |b| ensures b[i] !in seen + SetOf(a) {
        assert (a + b)[|a| + i] == b[i];
        forall k | 0 <= k < |a| ensures a[k] != b[i] {
          assert (a + b)[k] == a[k];
        }
      }
    }
  }

  /** One walk through a list: the last element after the rest. */
  lemma FitsLast(items: seq<Value>, depth: nat, w: Walk)
    requires items != []
    ensures var n := |items| - 1;
      && (FitsAll(items, depth, w) <==>
            FitsAll(items[..n], depth, w) && Fits(items[n], depth, ThroughAll(items[..n], w)))
      && ThroughAll(items, w) == Through(items[n], ThroughAll(items[..n], w))
  {
    var n := |items| - 1;
    FreshSplits(IdsAll(items[..n]), Ids(items[n]), w.seen);
    hide Fresh, SetOf;
    assert IdsAll(items) == IdsAll(items[..n]) + Ids(items[n]);
  }

  lemma FitsTree(value: Value, depth: nat, w: Walk)
    requires IsTree(value)
    ensures var entered := Walk(w.nodes + 1, w.changed, w.uncertain, w.seen + {value.id});
      && (Fits(value, depth, w) <==>
            depth <= MAX_DEPTH && w.nodes + 1 <= MAX_NODES && value.id !in w.seen && Proper(value)
            && FitsAll(value.items, depth + 1, entered))
      && Through(value, w) == ThroughAll(value.items, entered)
  {
    FreshSplits([value.id], IdsAll(value.items), w.seen);
    assert SetOf([value.id]) == {value.id};
    assert Fresh([value.id], w.seen) <==> value.id !in w.seen;
    hide Fresh, SetOf, Contains, Proper;
    var items := value.items;
    assert Size(value) == 1 + SizeAll(items) && Ids(value) == [value.id] + IdsAll(items);
    assert WellMade(value) <==> Proper(value) && WellMadeAll(items);
    assert Leaks(value) <==> LeaksAny(items);
    if items == [] {
      assert Height(value) == 0 && SizeAll(items) == 0;
    } else {
      assert Height(value) == 1 + HeightAll(items);
    }
  }

  /**
   The traversal gives up exactly on values that do not fit; on the others it returns the value
   with its leaking strings replaced, and says whether it replaced any.
   */
  lemma {:induction false} GoesThrough(value: Value, depth: nat, w: Walk)
    requires !w.uncertain
    ensures var (r, left) := Sanitize(value, depth, w);
      && (left.uncertain <==> !Fits(value, depth, w))
      && (Fits(value, depth, w) ==> r == Redacted(value) && left == Through(value, w))
    decreases value, 1
  {
    if IsTree(value) {
      FitsTree(value, depth, w);
      hide Fits, Fresh, SetOf, Contains, FitsAll;
      var entered := Walk(w.nodes + 1, w.changed, w.uncertain, w.seen + {value.id});
      GoThrough(value.items, depth + 1, entered);
    } else {
      assert w.seen + SetOf([]) == w.seen;
    }
  }

  lemma {:induction false} GoThrough(items: seq<Value>, depth: nat, w: Walk)
    requires !w.uncertain
    ensures var (r, left) := SanitizeAll(items, depth, w);
      && (left.uncertain <==> !FitsAll(items, depth, w))
      && (FitsAll(items, depth, w) ==> r == RedactedAll(items) && left == ThroughAll(items, w))
    decreases items, 0
  {
    if items == [] {
      assert w.seen + SetOf([]) == w.seen;
    } else {
      var n := |items| - 1;
      FitsLast(items, depth, w);
      hide Fits, Fresh, SetOf, Contains, FitsAll;
      GoThrough(items[..n], depth, w);
      var middle := SanitizeAll(items[..n], depth, w).1;
      if middle.uncertain {
        UncertainStays(items[n], depth, middle);
      } else {
        GoesThrough(items[n], depth, middle);
      }
    }
  }

  // ----- what the result is

  /** Not too deep, not too large, nothing reached twice, and well made throughout. */
  ghost predicate Clean(value: Value) {
    Height(value) <= MAX_DEPTH && Size(value) <= MAX_NODES && WellMade(value) && Fresh(Ids(value), {})
  }

  /** Withheld exactly when not clean; changed exactly when withheld or a string was replaced. */
  lemma SafetyExact(value: Value)
    ensures var s := SanitizePublic(value);
      && (s.withheld <==> !Clean(value))
      && (s.withheld ==> s.value == Text(WITHHELD))
      && (!s.withheld ==> s.value == Redacted(value))
      && (s.changed <==> s.withheld || Leaks(value))
  {
    GoesThrough(value, 0, START);
    hide Contains;
  }

  lemma {:induction false} RedactedShape(value: Value)
    ensures var r := Redacted(value);
      && !Leaks(r) && Size(r) == Size(value) && Height(r) == Height(value) && Ids(r) == Ids(value)
      && (WellMade(value) ==> WellMade(r))
      && Redacted(r) == r
    decreases value, 1
  {
    NoticesAreClean();
    hide Contains, KeysClean;
    if IsTree(value) {
      RedactedShapes(value.items);
    }
  }

  lemma {:induction false} RedactedShapes(items: seq<Value>)
    ensures var r := RedactedAll(items);
      && !LeaksAny(r) && SizeAll(r) == SizeAll(items) && HeightAll(r) == HeightAll(items) && IdsAll(r) == IdsAll(items)
      && (WellMadeAll(items) ==> WellMadeAll(r))
      && RedactedAll(r) == r
    decreases items, 0
  {
    if items != [] {
      var n := |items| - 1;
      RedactedShapes(items[..n]);
      RedactedShape(items[n]);
      hide Contains, KeysClean;
      var r := RedactedAll(items);
      assert r[..n] == RedactedAll(items[..n]) && r[n] == Redacted(items[n]);
    }
  }

  /** No credential is left in any string or key of the result, at any depth. */
  lemma ResultHoldsNoCredential(value: Value)
    ensures !Leaks(SanitizePublic(value).value) && WellMade(SanitizePublic(value).value)
  {
    SafetyExact(value);
    RedactedShape(value);
    NoticesAreClean();
  }

  /** Some object in the value has this key. */
  predicate HasKey(value: Value, key: string)
    decreases value, 1
  {
    (value.Object? && key in value.keys) || (IsTree(value) && HasKeyAny(value.items, key))
  }

  predicate HasKeyAny(items: seq<Value>, key: string)
    decreases items, 0
  {
    items != [] && (HasKeyAny(items[..|items| - 1], key) || HasKey(items[|items| - 1], key))
  }

  lemma {:induction false} WellMadeKeys(value: Value, key: string)
    requires WellMade(value) && HasKey(value, key)
    ensures !Contains(key)
    decreases value, 1
  {
    hide Contains;
    if value.Object? && key in value.keys {
      var i :| 0 <= i < |value.keys| && value.keys[i] == key;
    } else {
      WellMadeKeysAny(value.items, key);
    }
  }

  lemma {:induction false} WellMadeKeysAny(items: seq<Value>, key: string)
    requires WellMadeAll(items) && HasKeyAny(items, key)
    ensures !Contains(key)
    decreases items, 0
  {
    hide Contains;
    if HasKeyAny(items[..|items| - 1], key) {
      WellMadeKeysAny(items[..|items| - 1], key);
    } else {
      WellMadeKeys(items[|items| - 1], key);
    }
  }

  /** And so no key of the result is like a credential. */
  lemma ResultKeysAreClean(value: Value, key: string)
    ensures HasKey(SanitizePublic(value).value, key) ==> !Contains(key)
  {
    ResultHoldsNoCredential(value);
    hide Contains;
    if HasKey(SanitizePublic(value).value, key) {
      WellMadeKeys(SanitizePublic(value).value, key);
    }
  }

  /** Sanitizing twice is sanitizing once. */
  lemma SanitizeIdempotent(value: Value)
    ensures var once := SanitizePublic(value).value;
      SanitizePublic(once) == Safety(once, false, false)
  {
    var once := SanitizePublic(value).value;
    SafetyExact(value);
    SafetyExact(once);
    RedactedShape(value);
    NoticesAreClean();
    hide Contains;
    if SanitizePublic(value).withheld {
      assert Size(once) == 1 && Height(once) == 0 && Ids(once) == [];
    }
  }

  /** The part of a value that a path of positions leads to. */
  function At(value: Value, path: seq<nat>): Option<Value>
    decreases |path|
  {
    if path == [] then Some(value)
    else if IsTree(value) && path[0] < |value.items| then At(value.items[path[0]], path[1..])
    else None
  }

  lemma {:induction false} RedactedItem(items: seq<Value>, k: nat)
    requires k < |items|
    ensures RedactedAll(items)[k] == Redacted(items[k])
  {
    var n := |items| - 1;
    if k < n {
      RedactedItem(items[..n], k);
    }
  }

  /** An array with holes, an object that is not plain, or a key that looks like a credential. */
  predicate Offends(value: Value) {
    || (value.Array? && !value.dense)
    || (value.Object? && (!value.plain || exists i | 0 <= i < |value.keys| :: Contains(value.keys[i])))
  }

  /** Some path leads to an offending part. */
  ghost predicate OffendsWithin(value: Value) {
    exists path :: At(value, path).Some? && Offends(At(value, path).value)
  }

  ghost predicate ReachedTwice(ids: seq<nat>) {
    exists i, j :: 0 <= i < j < |ids| && ids[i] == ids[j]
  }

  lemma {:induction false} WellMadeExactly(value: Value)
    ensures WellMade(value) <==> !OffendsWithin(value)
    decreases value, 1
  {
    hide Contains;
    assert At(value, []) == Some(value);
    assert IsTree(value) ==> (Proper(value) <==> !Offends(value));
    if IsTree(value) {
      WellMadeItems(value.items);
      forall k | 0 <= k < |value.items| && OffendsWithin(value.items[k]) ensures OffendsWithin(value) {
        var path :| At(value.items[k], path).Some? && Offends(At(value.items[k], path).value);
        assert ([k] + path)[1..] == path;
        assert At(value, [k] + path) == At(value.items[k], path);
      }
      if OffendsWithin(value) && !Offends(value) {
        var path :| At(value, path).Some? && Offends(At(value, path).value);
        assert At(value, path) == At(value.items[path[0]], path[1..]);
        assert OffendsWithin(value.items[path[0]]);
      }
    }
  }

  lemma {:induction false} WellMadeItems(items: seq<Value>)
    ensures WellMadeAll(items) <==> forall k :: 0 <= k < |items| ==> !OffendsWithin(items[k])
    decreases items, 0
  {
    hide OffendsWithin;
    if items != [] {
      var n := |items| - 1;
      WellMadeItems(items[..n]);
      WellMadeExactly(items[n]);
      assert forall k :: 0 <= k < n ==> items[..n][k] == items[k];
    }
  }

  /** Withheld exactly when some part offends, or the value is too deep, too large or reached twice. */
  lemma WithheldExactly(value: Value)
    ensures SanitizePublic(value).withheld <==>
      (|| OffendsWithin(value)
       || Height(value) > 32
       || Size(value) > 20_000
       || ReachedTwice(Ids(value)))
    ensures SanitizePublic(value).withheld ==> SanitizePublic(value).value == Text(
      "The city withheld " + "a response that " + "contained a " + "resident credential" + ". The read was "
      + "stopped.")
  {
    SafetyExact(value);
    WellMadeExactly(value);
    hide OffendsWithin, SanitizePublic, WellMade, Height, Size, Ids;
    assert Fresh(Ids(value), {}) <==> !ReachedTwice(Ids(value));
  }

  /** What is not withheld keeps its shape: every path leads to the redacted part, and clean strings stay. */
  lemma {:induction false} ShapeKept(value: Value, path: seq<nat>)
    ensures At(Redacted(value), path).Some? <==> At(value, path).Some?
    ensures At(value, path).Some? ==>
      var was, now := At(value, path).value, At(Redacted(value), path).value;
      && now == Redacted(was)
      && (was.Text? && !Contains(was.text) ==> now == was)
      && (was.Text? && Contains(was.text) ==>
            now == Text("[redacted: this " + "text contained a " + "resident credential]"))
      && (was.Scalar? ==> now == was)
      && (was.Array? ==> now.Array? && |now.items| == |was.items|)
      && (was.Object? ==> now.Object? && now.keys == was.keys && |now.items| == |was.items|)
    decreases |path|
  {
    hide Contains;
    if path != [] && IsTree(value) && path[0] < |value.items| {
      RedactedItem(value.items, path[0]);
      ShapeKept(value.items[path[0]], path[1..]);
    }
  }
}
