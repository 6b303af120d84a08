/**
 * The structural part of mypy's type meet and overlap checks (mypy/meet.py):
 * the variants of a union-like type, the overlap of two TypedDicts, the
 * meet of two tuple types with at most one variadic item each, the
 * expansion of a variadic tuple to a given length, the adjustment of
 * `tuple[X, ...]` to a fixed length, and the meet of a list of types.
 * Types are an abstract type `T`; the meet of two types and their overlap
 * test are parameters, and `view` plays `get_proper_type`.
 */
module Meet {
  import opened Wrappers
  import opened Seqs
  import opened TupleTypes

  /** The shapes of a proper type that the helpers below inspect. */
  datatype ProperType<T> =
    | Instance(fullname: string, args: seq<T>, objectType: T)  // objectType: the instance of the last class of its MRO
    | TupleType(items: seq<TupleItem<T>>)
    | TypeVarType(values: seq<T>, upperBound: T)
    | ParamSpecType(paramSpecBound: T)
    | TypeVarTupleType(tupleBound: T)
    | UnionType(unionItems: seq<T>)
    | Overloaded(overloadItems: seq<T>)
    | OtherType

  // ---------------------------------------------------------------------------
  // get_possible_variants

  /**
   * `get_possible_variants`: the options a union-like type stands for. A
   * TypeVar with values stands for them, any other TypeVar-like for its
   * upper bound (for a ParamSpec, `object` or `Any`), a union or an overload
   * for its items, and every other type for itself. `typ` is taken as
   * already proper, as `is_overlapping_types` makes both sides proper before
   * calling it, so the fallback returns it unchanged rather than
   * `get_proper_type(typ)`.
   */
  function PossibleVariants<T>(typ: T, view: T -> ProperType<T>, any: T): (r: seq<T>)
    ensures view(typ).TypeVarType? && view(typ).values != [] ==> r == view(typ).values
    ensures view(typ).UnionType? ==> r == view(typ).unionItems
    ensures view(typ).Overloaded? ==> r == view(typ).overloadItems
    ensures !view(typ).UnionType? && !view(typ).Overloaded? && !(view(typ).TypeVarType? && view(typ).values != [])
            ==> |r| == 1
  {
    match view(typ)
    case TypeVarType(values, upperBound) => if |values| > 0 then values else [upperBound]
    case ParamSpecType(bound) => if view(bound).Instance? then [view(bound).objectType] else [any]
    case TypeVarTupleType(bound) => [bound]
    case UnionType(items) => items
    case Overloaded(items) => items
    case _ => [typ]
  }

  /** Only a union or an overload without items has no variants. */
  lemma PossibleVariantsEmpty<T>(typ: T, view: T -> ProperType<T>, any: T)
    ensures PossibleVariants(typ, view, any) == [] <==>
              (view(typ).UnionType? && view(typ).unionItems == [])
              || (view(typ).Overloaded? && view(typ).overloadItems == [])
  {
  }

  /** A type that is not union-like, TypeVar-like or an overload is its own only variant. */
  lemma PossibleVariantsPlain<T>(typ: T, view: T -> ProperType<T>, any: T)
    requires view(typ).Instance? || view(typ).TupleType? || view(typ).OtherType?
    ensures PossibleVariants(typ, view, any) == [typ]
  {
  }

  /**
   * The variants of a TypeVar-like are its values or its bound: for a
   * ParamSpec, `object` when the bound is an instance and `Any` otherwise.
   */
  lemma PossibleVariantsBound<T>(typ: T, view: T -> ProperType<T>, any: T)
    ensures view(typ).TypeVarType? && view(typ).values == [] ==> PossibleVariants(typ, view, any) == [view(typ).upperBound]
    ensures view(typ).TypeVarTupleType? ==> PossibleVariants(typ, view, any) == [view(typ).tupleBound]
    ensures view(typ).ParamSpecType? ==>
              PossibleVariants(typ, view, any)
              == if view(view(typ).paramSpecBound).Instance? then [view(view(typ).paramSpecBound).objectType] else [any]
  {
  }

  // ---------------------------------------------------------------------------
  // are_typed_dicts_overlapping

  /** A TypedDict: its item types, and its required keys (a subset of them) in iteration order. */
  datatype TypedDict<K, T> = TypedDict(items: map<K, T>, requiredKeys: seq<K>)

  /** Every required key has an item. */
  predicate WellFormed<K, T>(d: TypedDict<K, T>) {
    forall k :: k in d.requiredKeys ==> k in d.items
  }

  /** Both dicts have `key`, and its two item types overlap. */
  predicate KeyOverlaps<K, T>(left: TypedDict<K, T>, right: TypedDict<K, T>, key: K, isOverlapping: (T, T) -> bool) {
    key in left.items && key in right.items && isOverlapping(left.items[key], right.items[key])
  }

  /**
   * Two TypedDicts overlap when every key required by either one is present
   * in both with overlapping types; optional keys do not matter.
   */
  predicate TypedDictsOverlapping<K, T>(left: TypedDict<K, T>, right: TypedDict<K, T>, isOverlapping: (T, T) -> bool) {
    (forall k :: k in left.requiredKeys ==> KeyOverlaps(left, right, k, isOverlapping))
    && (forall k :: k in right.requiredKeys ==> KeyOverlaps(left, right, k, isOverlapping))
  }

  /** `are_typed_dicts_overlapping`: the required keys of the left dict, then those of the right one. */
  method AreTypedDictsOverlapping<K, T>(left: TypedDict<K, T>, right: TypedDict<K, T>, isOverlapping: (T, T) -> bool)
    returns (b: bool)
    requires WellFormed(left) && WellFormed(right)
    ensures b <==> TypedDictsOverlapping(left, right, isOverlapping)
  {
    for i := 0 to |left.requiredKeys|
      invariant forall j :: 0 <= j < i ==> KeyOverlaps(left, right, left.requiredKeys[j], isOverlapping)
    {
      var key := left.requiredKeys[i];
      if key !in right.items || !isOverlapping(left.items[key], right.items[key]) {
        assert !KeyOverlaps(left, right, key, isOverlapping);
        return false;
      }
    }
    for i := 0 to |right.requiredKeys|
      invariant forall j :: 0 <= j < i ==> KeyOverlaps(left, right, right.requiredKeys[j], isOverlapping)
    {
      var key := right.requiredKeys[i];
      if key !in left.items || !isOverlapping(left.items[key], right.items[key]) {
        assert !KeyOverlaps(left, right, key, isOverlapping);
        return false;
      }
    }
    return true;
  }

  /** The overlap test is symmetric when the overlap of item types is. */
  lemma TypedDictsOverlapSymmetric<K, T>(left: TypedDict<K, T>, right: TypedDict<K, T>, isOverlapping: (T, T) -> bool)
    requires forall x, y :: isOverlapping(x, y) == isOverlapping(y, x)
    ensures TypedDictsOverlapping(left, right, isOverlapping) <==> TypedDictsOverlapping(right, left, isOverlapping)
  {
    assert forall k :: KeyOverlaps(left, right, k, isOverlapping) <==> KeyOverlaps(right, left, k, isOverlapping);
  }

  /**
   * An extra optional key, required by neither dict, changes nothing: the
   * dicts would overlap when that key happened to be missing.
   */
  lemma OptionalKeyIrrelevant<K, T>(left: TypedDict<K, T>, right: TypedDict<K, T>, key: K, typ: T, isOverlapping: (T, T) -> bool)
    requires key !in left.requiredKeys && key !in right.requiredKeys
    ensures TypedDictsOverlapping(left.(items := left.items[key := typ]), right, isOverlapping)
            <==> TypedDictsOverlapping(left, right, isOverlapping)
  {
    var left' := left.(items := left.items[key := typ]);
    forall k | k in left.requiredKeys || k in right.requiredKeys
      ensures KeyOverlaps(left', right, k, isOverlapping) <==> KeyOverlaps(left, right, k, isOverlapping)
    {
      assert k != key;
    }
  }

  /** A well-formed TypedDict overlaps itself when each item type overlaps itself. */
  lemma TypedDictOverlapsItself<K, T>(d: TypedDict<K, T>, isOverlapping: (T, T) -> bool)
    requires WellFormed(d)
    requires forall k :: k in d.items ==> isOverlapping(d.items[k], d.items[k])
    ensures TypedDictsOverlapping(d, d, isOverlapping)
  {
  }

  /** A key required by one side and missing from the other rules out an overlap. */
  lemma MissingRequiredKey<K, T>(left: TypedDict<K, T>, right: TypedDict<K, T>, key: K, isOverlapping: (T, T) -> bool)
    requires (key in left.requiredKeys && key !in right.items) || (key in right.requiredKeys && key !in left.items)
    ensures !TypedDictsOverlapping(left, right, isOverlapping)
  {
  }

  // ---------------------------------------------------------------------------
  // expand_tuple_if_possible

  /** One item after expansion: an unpacked item becomes `extra` copies of its element. */
  function ExpandItem<T>(it: TupleItem<T>, extra: nat): (r: seq<TupleItem<T>>)
    ensures it.Item? ==> r == [it]
    ensures it.Unpack? ==> |r| == extra && forall i :: 0 <= i < extra ==> r[i] == Item(it.middle)
  {
    match it
    case Item(_) => [it]
    case Unpack(x, _) => seq(extra, _ => Item(x))
  }

  /** Every item expanded in place. */
  function Expand<T>(items: seq<TupleItem<T>>, extra: nat): seq<TupleItem<T>>
    decreases |items|
  {
    if items == [] then [] else Expand(items[..|items| - 1], extra) + ExpandItem(items[|items| - 1], extra)
  }

  /** The tuple a variadic tuple is expanded to so that it can be compared with one of length `target`. */
  function ExpandTuple<T>(tup: seq<TupleItem<T>>, target: nat): seq<TupleItem<T>> {
    if |tup| > target + 1 then tup else Expand(tup, target + 1 - |tup|)
  }

  /** `expand_tuple_if_possible`. */
  method ExpandTupleIfPossible<T>(tup: seq<TupleItem<T>>, target: nat) returns (r: seq<TupleItem<T>>)
    ensures r == ExpandTuple(tup, target)
  {
    if |tup| > target + 1 {
      return tup;
    }
    var extra := target + 1 - |tup|;
    r := [];
    for i := 0 to |tup|
      invariant r == Expand(tup[..i], extra)
    {
      TakeSnoc(tup, i);
      match tup[i]
      case Item(_) =>
        r := r + [tup[i]];
      case Unpack(x, _) =>
        r := r + seq(extra, _ => Item(x));
    }
    TakeAll(tup);
  }

  /** Expansion distributes over concatenation. */
  lemma {:induction false} ExpandConcat<T>(a: seq<TupleItem<T>>, b: seq<TupleItem<T>>, extra: nat)
    ensures Expand(a + b, extra) == Expand(a, extra) + Expand(b, extra)
    decreases |b|
  {
    if b == [] {
      assert a + b == a;
    } else {
      var b' := b[..|b| - 1];
      assert (a + b)[..|a + b| - 1] == a + b' && (a + b)[|a + b| - 1] == b[|b| - 1];
      ExpandConcat(a, b', extra);
      ConcatAssoc(Expand(a, extra), Expand(b', extra), ExpandItem(b[|b| - 1], extra));
    }
  }

  /** Items without an unpack are left as they are. */
  lemma {:induction false} ExpandNoUnpack<T>(items: seq<TupleItem<T>>, extra: nat)
    requires forall i :: 0 <= i < |items| ==> items[i].Item?
    ensures Expand(items, extra) == items
    decreases |items|
  {
    if items != [] {
      ExpandNoUnpack(items[..|items| - 1], extra);
      InitLast(items);
    }
  }

  /** A fixed tuple is never changed. */
  lemma ExpandFixed<T>(tup: seq<TupleItem<T>>, target: nat)
    requires FindUnpack(tup).None?
    ensures ExpandTuple(tup, target) == tup
  {
    if |tup| <= target + 1 {
      ExpandNoUnpack(tup, target + 1 - |tup|);
    }
  }

  /** With its only unpack at `u`, expansion replaces just that item. */
  lemma ExpandSplit<T>(tup: seq<TupleItem<T>>, u: nat, extra: nat)
    requires OnlyUnpackAt(tup, u)
    ensures Expand(tup, extra) == tup[..u] + ExpandItem(tup[u], extra) + tup[u + 1..]
  {
    var pre, post := tup[..u], tup[u + 1..];
    assert tup == pre + [tup[u]] + post;
    ExpandConcat(pre + [tup[u]], post, extra);
    ExpandConcat(pre, [tup[u]], extra);
    assert Expand([tup[u]], extra) == ExpandItem(tup[u], extra) by {
      assert [tup[u]][..0] == [];
    }
    ExpandNoUnpack(pre, extra);
    ExpandNoUnpack(post, extra);
  }

  /**
   * A tuple with one unpacked item at `u` and at most `target + 1` items
   * becomes a fixed tuple of exactly `target` items: the items before `u`,
   * then copies of the variadic element, then the items after `u`.
   */
  lemma ExpandOneUnpack<T>(tup: seq<TupleItem<T>>, target: nat, u: nat)
    requires OnlyUnpackAt(tup, u) && |tup| <= target + 1
    ensures var r := ExpandTuple(tup, target);
            var extra := target + 1 - |tup|;
            |r| == target
            && (forall i :: 0 <= i < u ==> r[i] == tup[i])
            && (forall i :: u <= i < u + extra ==> r[i] == Item(tup[u].middle))
            && (forall i :: u + extra <= i < target ==> r[i] == tup[i - extra + 1])
            && FindUnpack(r).None?
  {
    var extra := target + 1 - |tup|;
    var r, mid := Expand(tup, extra), ExpandItem(tup[u], extra);
    assert ExpandTuple(tup, target) == r;
    ExpandSplit(tup, u, extra);
    Spliced(r, tup, u, mid, tup[u].middle);
    assert |r| == target;
    ExpandAllItems(tup, extra);
  }

  /** A tuple whose item `u` is replaced by copies of `x`, read position by position. */
  lemma Spliced<T>(r: seq<TupleItem<T>>, tup: seq<TupleItem<T>>, u: nat, mid: seq<TupleItem<T>>, x: T)
    requires u < |tup| && r == tup[..u] + mid + tup[u + 1..]
    requires forall i :: 0 <= i < |mid| ==> mid[i] == Item(x)
    ensures |r| == |tup| - 1 + |mid|
    ensures forall i :: 0 <= i < u ==> r[i] == tup[i]
    ensures forall i :: u <= i < u + |mid| ==> r[i] == Item(x)
    ensures forall i :: u + |mid| <= i < |r| ==> r[i] == tup[i - |mid| + 1]
  {
    ThreeParts(tup[..u], mid, tup[u + 1..]);
  }

  /** Expansion leaves no unpacked item. */
  lemma {:induction false} ExpandAllItems<T>(items: seq<TupleItem<T>>, extra: nat)
    ensures forall i :: 0 <= i < |Expand(items, extra)| ==> Expand(items, extra)[i].Item?
    decreases |items|
  {
    if items != [] {
      ExpandAllItems(items[..|items| - 1], extra);
    }
  }

  // ---------------------------------------------------------------------------
  // adjust_tuple

  /** The fullname of the builtin tuple class. */
  const TUPLE_NAME: string := "builtins.tuple"

  /** `left` is `tuple[X, ...]`. */
  predicate IsTupleInstance<T>(left: ProperType<T>) {
    left.Instance? && left.fullname == TUPLE_NAME
  }

  /**
   * `adjust_tuple`: `tuple[X, ...]` as a fixed tuple of `X`s as long as
   * `r` when that is a tuple type, and of one `X` otherwise.
   */
  function AdjustTuple<T>(left: ProperType<T>, r: ProperType<T>): (res: Option<seq<TupleItem<T>>>)
    requires IsTupleInstance(left) ==> |left.args| > 0
    ensures res.Some? <==> IsTupleInstance(left)
    ensures res.Some? ==> |res.value| == (if r.TupleType? then |r.items| else 1)
    ensures res.Some? ==> forall i :: 0 <= i < |res.value| ==> res.value[i] == Item(left.args[0])
  {
    if IsTupleInstance(left) then
      var n := if r.TupleType? then |r.items| else 1;
      Some(seq(n, _ => Item(left.args[0])))
    else None
  }

  /**
   * After adjustment, the two sides of a tuple overlap check have the same
   * length when the other side is a tuple type, and expanding the adjusted
   * tuple leaves it as it is.
   */
  lemma AdjustedTupleFixed<T>(left: ProperType<T>, r: ProperType<T>, target: nat)
    requires IsTupleInstance(left) && |left.args| > 0 && r.TupleType?
    ensures var a := AdjustTuple(left, r).value;
            |a| == |r.items| && FindUnpack(a).None? && ExpandTuple(a, target) == a
  {
    ExpandFixed(AdjustTuple(left, r).value, target);
  }

  // ---------------------------------------------------------------------------
  // meet_tuples

  /** Two fixed tuples of the same length: the item-wise meets, `t`'s item first. */
  function FixedMeet<T>(s: seq<TupleItem<T>>, t: seq<TupleItem<T>>, meet: (T, T) -> T): seq<TupleItem<T>>
    requires |s| == |t|
    requires forall i :: 0 <= i < |s| ==> s[i].Item? && t[i].Item?
  {
    seq(|t|, i requires 0 <= i < |t| => Item(meet(t[i].t, s[i].t)))
  }

  /** Two variadic tuples of one shape: the item-wise meets around the meet of the variadic items. */
  function BothVariadicMeet<T>(s: seq<TupleItem<T>>, t: seq<TupleItem<T>>, u: nat, middle: T, meet: (T, T) -> T)
    : seq<TupleItem<T>>
    requires |s| == |t| && OnlyUnpackAt(s, u) && OnlyUnpackAt(t, u)
  {
    seq(|s|, i requires 0 <= i < |s| => if i == u then Unpack(middle, None) else Item(meet(s[i].t, t[i].t)))
  }

  /**
   * Item `i` of the meet of a fixed tuple with a variadic one whose unpack
   * is at `u`: the fixed items split into a prefix as long as the variadic
   * prefix, a suffix as long as the variadic suffix, and a middle met with
   * the variadic element.
   */
  function VariadicMeetItem<T>(fixed: seq<TupleItem<T>>, variadic: seq<TupleItem<T>>, u: nat, meet: (T, T) -> T, i: nat): T
    requires OnlyUnpackAt(variadic, u) && |fixed| >= |variadic| - 1 && i < |fixed|
    requires forall j :: 0 <= j < |fixed| ==> fixed[j].Item?
  {
    var suffixStart := |fixed| - (|variadic| - u - 1);
    if i < u then meet(fixed[i].t, variadic[i].t)
    else if i < suffixStart then meet(fixed[i].t, variadic[u].middle)
    else meet(fixed[i].t, variadic[i - suffixStart + u + 1].t)
  }

  function VariadicMeet<T>(fixed: seq<TupleItem<T>>, variadic: seq<TupleItem<T>>, u: nat, meet: (T, T) -> T)
    : seq<TupleItem<T>>
    requires OnlyUnpackAt(variadic, u) && |fixed| >= |variadic| - 1
    requires forall j :: 0 <= j < |fixed| ==> fixed[j].Item?
  {
    seq(|fixed|, i requires 0 <= i < |fixed| => Item(VariadicMeetItem(fixed, variadic, u, meet, i)))
  }

  /**
   * The meet of two tuple types, or `None` when it is not handled: two
   * fixed tuples meet item-wise when their lengths agree; two variadic
   * tuples only when their shapes match and the variadic items meet in an
   * instance (`meetVariadic` gives its element); a fixed and a variadic
   * tuple when the variadic item is `*tuple[X, ...]` and the fixed tuple is
   * long enough for the variadic prefix and suffix.
   */
  function TupleMeet<T>(s: seq<TupleItem<T>>, t: seq<TupleItem<T>>, meet: (T, T) -> T, meetVariadic: (T, T) -> Option<T>)
    : Option<seq<TupleItem<T>>>
    requires AtMostOneUnpack(s) && AtMostOneUnpack(t)
  {
    var su, tu := FindUnpack(s), FindUnpack(t);
    if su.None? && tu.None? then
      if |s| == |t| then Some(FixedMeet(s, t, meet)) else None
    else if su.Some? && tu.Some? then
      OnlyUnpackAtFound(s);
      OnlyUnpackAtFound(t);
      var u := su.value;
      if |s| == |t| && su == tu && s[u].typeVarTupleMinLen.None? && t[u].typeVarTupleMinLen.None? then
        match meetVariadic(s[u].middle, t[u].middle)
        case None => None
        case Some(m) => Some(BothVariadicMeet(s, t, u, m, meet))
      else None
    else
      var variadic, fixed, u := if su.Some? then s else t, if su.Some? then t else s, if su.Some? then su.value else tu.value;
      OnlyUnpackAtFound(variadic);
      if variadic[u].typeVarTupleMinLen.Some? || |fixed| < |variadic| - 1 then None
      else Some(VariadicMeet(fixed, variadic, u, meet))
  }

  /** `TypeMeetVisitor.meet_tuples`: the case is chosen by where the two tuples have their unpack. */
  method MeetTuples<T>(s: seq<TupleItem<T>>, t: seq<TupleItem<T>>, meet: (T, T) -> T, meetVariadic: (T, T) -> Option<T>)
    returns (r: Option<seq<TupleItem<T>>>)
    requires AtMostOneUnpack(s) && AtMostOneUnpack(t)
    ensures r == TupleMeet(s, t, meet, meetVariadic)
  {
    var su, tu := FindUnpack(s), FindUnpack(t);
    if su.None? && tu.None? {
      if |s| == |t| {
        var items := MeetFixedItems(s, t, meet);
        return Some(items);
      }
      return None;
    }
    if su.Some? && tu.Some? {
      OnlyUnpackAtFound(s);
      OnlyUnpackAtFound(t);
      var u := su.value;
      if |s| == |t| && su == tu {
        if !(s[u].typeVarTupleMinLen.None? && t[u].typeVarTupleMinLen.None?) {
          return None;
        }
        var m := meetVariadic(s[u].middle, t[u].middle);
        if m.None? {
          return None;
        }
        var items := MeetSameShapeItems(s, t, u, m.value, meet);
        return Some(items);
      }
      return None;
    }
    var variadic, fixed, u;
    if su.Some? {
      variadic, u, fixed := s, su.value, t;
    } else {
      variadic, u, fixed := t, tu.value, s;
    }
    OnlyUnpackAtFound(variadic);
    if variadic[u].typeVarTupleMinLen.Some? {
      return None;
    }
    if |fixed| < |variadic| - 1 {
      return None;
    }
    var items := MeetVariadicItems(fixed, variadic, u, meet);
    return Some(items);
  }

  /** The loop of `meet_tuples` over two fixed tuples of one length. */
  method MeetFixedItems<T>(s: seq<TupleItem<T>>, t: seq<TupleItem<T>>, meet: (T, T) -> T) returns (items: seq<TupleItem<T>>)
    requires |s| == |t|
    requires forall i :: 0 <= i < |s| ==> s[i].Item? && t[i].Item?
    ensures items == FixedMeet(s, t, meet)
  {
    items := [];
    for i := 0 to |t|
      invariant |items| == i && forall j :: 0 <= j < i ==> items[j] == Item(meet(t[j].t, s[j].t))
    {
      items := items + [Item(meet(t[i].t, s[i].t))];
    }
  }

  /** The two loops of `meet_tuples` over the prefixes and suffixes of two variadic tuples of one shape. */
  method MeetSameShapeItems<T>(s: seq<TupleItem<T>>, t: seq<TupleItem<T>>, u: nat, middle: T, meet: (T, T) -> T)
    returns (items: seq<TupleItem<T>>)
    requires |s| == |t| && OnlyUnpackAt(s, u) && OnlyUnpackAt(t, u)
    ensures items == BothVariadicMeet(s, t, u, middle, meet)
  {
    var prefix := [];
    for i := 0 to u
      invariant |prefix| == i && forall j :: 0 <= j < i ==> prefix[j] == Item(meet(s[j].t, t[j].t))
    {
      prefix := prefix + [Item(meet(s[i].t, t[i].t))];
    }
    var suffix := [];
    for i := u + 1 to |s|
      invariant |suffix| == i - u - 1
      invariant forall j :: u + 1 <= j < i ==> suffix[j - u - 1] == Item(meet(s[j].t, t[j].t))
    {
      suffix := suffix + [Item(meet(s[i].t, t[i].t))];
    }
    items := prefix + [Unpack(middle, None)] + suffix;
    assert forall j :: u < j < |s| ==> items[j] == suffix[j - u - 1];
  }

  /** The three loops of `meet_tuples` over a fixed tuple split along a variadic one. */
  method MeetVariadicItems<T>(fixed: seq<TupleItem<T>>, variadic: seq<TupleItem<T>>, u: nat, meet: (T, T) -> T)
    returns (items: seq<TupleItem<T>>)
    requires OnlyUnpackAt(variadic, u) && |fixed| >= |variadic| - 1
    requires forall j :: 0 <= j < |fixed| ==> fixed[j].Item?
    ensures items == VariadicMeet(fixed, variadic, u, meet)
  {
    var suffixLen := |variadic| - u - 1;
    var suffixStart := |fixed| - suffixLen;
    items := [];
    for i := 0 to u
      invariant |items| == i
      invariant forall j :: 0 <= j < i ==> items[j] == Item(VariadicMeetItem(fixed, variadic, u, meet, j))
    {
      items := items + [Item(meet(fixed[i].t, variadic[i].t))];
    }
    for i := u to suffixStart
      invariant |items| == i
      invariant forall j :: 0 <= j < i ==> items[j] == Item(VariadicMeetItem(fixed, variadic, u, meet, j))
    {
      items := items + [Item(meet(fixed[i].t, variadic[u].middle))];
    }
    if suffixLen > 0 {
      for i := suffixStart to |fixed|
        invariant |items| == i
        invariant forall j :: 0 <= j < i ==> items[j] == Item(VariadicMeetItem(fixed, variadic, u, meet, j))
      {
        items := items + [Item(meet(fixed[i].t, variadic[i - suffixStart + u + 1].t))];
      }
    }
  }

  /** Two fixed tuples meet exactly when their lengths agree, item by item and with that length. */
  lemma MeetFixedTuples<T>(s: seq<TupleItem<T>>, t: seq<TupleItem<T>>, meet: (T, T) -> T, meetVariadic: (T, T) -> Option<T>)
    requires AtMostOneUnpack(s) && AtMostOneUnpack(t) && FindUnpack(s).None? && FindUnpack(t).None?
    ensures var r := TupleMeet(s, t, meet, meetVariadic);
            (r.Some? <==> |s| == |t|)
            && (r.Some? ==> |r.value| == |t| && forall i :: 0 <= i < |t| ==> r.value[i] == Item(meet(t[i].t, s[i].t)))
  {
  }

  /**
   * A fixed tuple meets a variadic one exactly when the variadic item is
   * `*tuple[X, ...]` and the fixed tuple has at least the variadic tuple's
   * other items; the meet is then fixed and as long as the fixed tuple,
   * its prefix and suffix met with the variadic prefix and suffix and its
   * middle with `X`.
   */
  lemma MeetFixedVariadic<T>(fixed: seq<TupleItem<T>>, variadic: seq<TupleItem<T>>, meet: (T, T) -> T,
                             meetVariadic: (T, T) -> Option<T>, u: nat)
    requires AtMostOneUnpack(fixed) && AtMostOneUnpack(variadic)
    requires FindUnpack(fixed).None? && FindUnpack(variadic) == Some(u)
    ensures OnlyUnpackAt(variadic, u)
    ensures var r := TupleMeet(fixed, variadic, meet, meetVariadic);
            var suffixStart := |fixed| - (|variadic| - u - 1);
            (r.Some? <==> variadic[u].typeVarTupleMinLen.None? && |fixed| >= |variadic| - 1)
            && (r.Some? ==>
                  (|r.value| == |fixed| && FindUnpack(r.value).None?
                   && (forall i :: 0 <= i < u ==> r.value[i] == Item(meet(fixed[i].t, variadic[i].t)))
                   && (forall i :: u <= i < suffixStart ==> r.value[i] == Item(meet(fixed[i].t, variadic[u].middle)))
                   && forall i :: suffixStart <= i < |fixed| ==>
                        r.value[i] == Item(meet(fixed[i].t, variadic[i - suffixStart + u + 1].t))))
  {
    OnlyUnpackAtFound(variadic);
  }

  /** The meet of a fixed and a variadic tuple does not depend on their order. */
  lemma MeetTuplesFixedSymmetric<T>(s: seq<TupleItem<T>>, t: seq<TupleItem<T>>, meet: (T, T) -> T, meetVariadic: (T, T) -> Option<T>)
    requires AtMostOneUnpack(s) && AtMostOneUnpack(t)
    requires FindUnpack(s).None? != FindUnpack(t).None?
    ensures TupleMeet(s, t, meet, meetVariadic) == TupleMeet(t, s, meet, meetVariadic)
  {
  }

  /**
   * Two variadic tuples meet only when they have the same length, the
   * variadic item at the same place, and both variadic items are
   * `*tuple[...]`; the meet keeps that shape.
   */
  lemma MeetVariadicTuples<T>(s: seq<TupleItem<T>>, t: seq<TupleItem<T>>, meet: (T, T) -> T,
                              meetVariadic: (T, T) -> Option<T>, u: nat)
    requires AtMostOneUnpack(s) && AtMostOneUnpack(t) && FindUnpack(s) == Some(u) && FindUnpack(t).Some?
    ensures var r := TupleMeet(s, t, meet, meetVariadic);
            r.Some? ==> |s| == |t| && FindUnpack(t) == Some(u)
                        && s[u].typeVarTupleMinLen.None? && t[u].typeVarTupleMinLen.None?
                        && |r.value| == |s| && OnlyUnpackAt(r.value, u)
                        && meetVariadic(s[u].middle, t[u].middle) == Some(r.value[u].middle)
  {
    OnlyUnpackAtFound(s);
    OnlyUnpackAtFound(t);
  }

  // ---------------------------------------------------------------------------
  // meet_type_list

  /** `acc` met with each of `s` in turn, from the left. */
  function FoldMeet<T>(meet: (T, T) -> T, acc: T, s: seq<T>): T
    decreases |s|
  {
    if s == [] then acc else meet(FoldMeet(meet, acc, s[..|s| - 1]), s[|s| - 1])
  }

  /** The meet of a list of types: `any` for none, else the left fold from the first. */
  function MeetAll<T>(types: seq<T>, meet: (T, T) -> T, any: T): T {
    if types == [] then any else FoldMeet(meet, types[0], types[1..])
  }

  /** `meet_type_list`. */
  method MeetTypeList<T>(types: seq<T>, meet: (T, T) -> T, any: T) returns (met: T)
    ensures met == MeetAll(types, meet, any)
  {
    if |types| == 0 {
      return any;
    }
    met := types[0];
    for i := 1 to |types|
      invariant met == FoldMeet(meet, types[0], types[1..i])
    {
      assert types[1..i + 1][..i - 1] == types[1..i];
      met := meet(met, types[i]);
    }
    assert types[1..|types|] == types[1..];
  }

  ghost predicate Associative<T(!new)>(meet: (T, T) -> T) {
    forall a, b, c :: meet(meet(a, b), c) == meet(a, meet(b, c))
  }

  /** Folding over two parts folds over the second from the fold over the first. */
  lemma {:induction false} FoldMeetConcat<T>(meet: (T, T) -> T, acc: T, a: seq<T>, b: seq<T>)
    ensures FoldMeet(meet, acc, a + b) == FoldMeet(meet, FoldMeet(meet, acc, a), b)
    decreases |b|
  {
    if b == [] {
      assert a + b == a;
    } else {
      var b' := b[..|b| - 1];
      assert (a + b)[..|a + b| - 1] == a + b' && (a + b)[|a + b| - 1] == b[|b| - 1];
      FoldMeetConcat(meet, acc, a, b');
    }
  }

  /** With an associative meet, folding from `acc` is `acc` met with the fold of the rest. */
  lemma {:induction false} FoldMeetAssoc<T(!new)>(meet: (T, T) -> T, acc: T, x: T, s: seq<T>)
    requires Associative(meet)
    ensures FoldMeet(meet, meet(acc, x), s) == meet(acc, FoldMeet(meet, x, s))
    decreases |s|
  {
    if s != [] {
      FoldMeetAssoc(meet, acc, x, s[..|s| - 1]);
    }
  }

  /**
   * With an associative meet, the meet of a list split in two non-empty
   * parts is the meet of the meets of the parts.
   */
  lemma MeetAllConcat<T(!new)>(a: seq<T>, b: seq<T>, meet: (T, T) -> T, any: T)
    requires Associative(meet) && a != [] && b != []
    ensures MeetAll(a + b, meet, any) == meet(MeetAll(a, meet, any), MeetAll(b, meet, any))
  {
    assert (a + b)[1..] == a[1..] + b;
    FoldMeetConcat(meet, a[0], a[1..], b);
    var m := FoldMeet(meet, a[0], a[1..]);
    assert b == [b[0]] + b[1..];
    FoldMeetConcat(meet, m, [b[0]], b[1..]);
    assert FoldMeet(meet, m, [b[0]]) == meet(m, b[0]) by {
      assert [b[0]][..0] == [];
    }
    FoldMeetAssoc(meet, m, b[0], b[1..]);
  }

  /** A single type is its own meet, and appending a type meets it with the meet so far. */
  lemma MeetAllSnoc<T>(types: seq<T>, x: T, meet: (T, T) -> T, any: T)
    ensures MeetAll([x], meet, any) == x
    ensures types != [] ==> MeetAll(types + [x], meet, any) == meet(MeetAll(types, meet, any), x)
  {
    assert [x][1..] == [];
    if types != [] {
      assert (types + [x])[1..] == types[1..] + [x];
      assert (types[1..] + [x])[..|types[1..] + [x]| - 1] == types[1..];
    }
  }
}
