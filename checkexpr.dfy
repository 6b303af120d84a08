/**
 * Structural helpers of mypy's expression checker (mypy/checkexpr.py):
 * indexing a tuple type by an integer, including a tuple with one unpacked
 * variadic item; reading integer literals off an index expression; the
 * duplicate-actual test of a call; the order in which overload items are
 * tried; and the merge of argument kinds when overload items are combined.
 * Types are an abstract item type `T`: only the tuple structure matters.
 */
module CheckExpr {
  import opened Wrappers
  import opened Seqs
  import opened Nodes
  import opened TupleTypes

  // ---------------------------------------------------------------------------
  // Tuple indexing

  /** The fixed items of a tuple: all but an unpacked one. */
  function FixedCount<T>(items: seq<TupleItem<T>>): (r: nat)
    ensures r <= |items|
    decreases |items|
  {
    if items == [] then 0
    else FixedCount(items[..|items| - 1]) + (if items[|items| - 1].Unpack? then 0 else 1)
  }

  /**
   * `min_tuple_length`: the fewest items a value of the tuple type has. A
   * tuple without an unpack has exactly its items; with one, the other items
   * and the variadic item's minimum.
   */
  function MinTupleLength<T>(items: seq<TupleItem<T>>): (r: nat)
  {
    match FindUnpack(items)
    case None => |items|
    case Some(u) => |items| - 1 + ExtraItems(items[u])
  }

  /** The minimum length counts the fixed items and the variadic item's own minimum. */
  lemma MinTupleLengthCounts<T>(items: seq<TupleItem<T>>)
    requires AtMostOneUnpack(items)
    ensures FindUnpack(items).None? ==> MinTupleLength(items) == FixedCount(items) == |items|
    ensures FindUnpack(items).Some? ==>
              MinTupleLength(items) == FixedCount(items) + ExtraItems(items[FindUnpack(items).value])
              && FixedCount(items) == |items| - 1
  {
    FixedCountUnpacks(items);
  }

  /** With at most one unpacked item, the fixed items are all the items, or all but that one. */
  lemma {:induction false} FixedCountUnpacks<T>(items: seq<TupleItem<T>>)
    requires AtMostOneUnpack(items)
    ensures (forall i :: 0 <= i < |items| ==> !items[i].Unpack?) ==> FixedCount(items) == |items|
    ensures (exists i :: 0 <= i < |items| && items[i].Unpack?) ==> FixedCount(items) == |items| - 1
    decreases |items|
  {
    if items != [] {
      var init := items[..|items| - 1];
      assert forall i :: 0 <= i < |init| ==> init[i] == items[i];
      FixedCountUnpacks(init);
      if items[|items| - 1].Unpack? {
        assert forall i :: 0 <= i < |init| ==> !init[i].Unpack?;
      } else if exists i :: 0 <= i < |items| && items[i].Unpack? {
        var i :| 0 <= i < |items| && items[i].Unpack?;
        assert init[i].Unpack?;
      }
    }
  }

  /** The type an index gives: one item, or `make_union` of several. */
  datatype IndexType<T> = Single(item: TupleItem<T>) | UnionOf(members: seq<TupleItem<T>>)

  /** `UnionType.make_union`: one member is that member itself. */
  function MakeUnion<T>(members: seq<TupleItem<T>>): (r: IndexType<T>)
    ensures |members| == 1 ==> r == Single(members[0])
    ensures |members| != 1 ==> r == UnionOf(members)
  {
    if |members| == 1 then Single(members[0]) else UnionOf(members)
  }

  /**
   * `visit_tuple_index_helper`: the type of `left[n]` for an integer `n`, or
   * `None` when the index is out of range. Without an unpack a negative
   * index counts from the end. With an unpack at `u`, a non-negative index
   * before `u` is that item and one at or after it is a union of the
   * variadic element with the fixed items it may reach; a negative index is
   * handled symmetrically from the end.
   */
  function TupleIndex<T>(items: seq<TupleItem<T>>, n: int): (r: Option<IndexType<T>>)
  {
    match FindUnpack(items)
    case None =>
      var m := if n < 0 then n + |items| else n;
      if 0 <= m < |items| then Some(Single(items[m])) else None
    case Some(u) =>
      var middle := Item(items[u].middle);
      var minLen := MinTupleLength(items);
      var extra := ExtraItems(items[u]);
      if n >= 0 then
        if n >= minLen then None
        else if n < u then Some(Single(items[n]))
        else
          var hi := if n - extra + 2 > u + 1 then n - extra + 2 else u + 1;
          Some(MakeUnion([middle] + items[u + 1..hi]))
      else
        var m := n + minLen;
        if m < 0 then None
        else if m >= u + extra then Some(Single(items[m - extra + 1]))
        else
          var lo := if m < u then m else u;
          Some(MakeUnion(items[lo..u] + [middle]))
  }

  /** Without an unpack, `left[n]` exists exactly for `-len <= n < len`, and is the item `n` names. */
  lemma TupleIndexFixed<T>(items: seq<TupleItem<T>>, n: int)
    requires FindUnpack(items).None?
    ensures TupleIndex(items, n).Some? <==> -|items| <= n < |items|
    ensures TupleIndex(items, n).Some? ==>
              TupleIndex(items, n) == Some(Single(items[if n < 0 then n + |items| else n]))
  {
  }

  /** Without an unpack, index `n - len` names the same item as `n`. */
  lemma TupleIndexMirror<T>(items: seq<TupleItem<T>>, n: int)
    requires FindUnpack(items).None? && 0 <= n < |items|
    ensures TupleIndex(items, n - |items|) == TupleIndex(items, n) == Some(Single(items[n]))
  {
  }

  /**
   * With an unpack at `u`: a non-negative index from the minimum length on
   * has no type, and one before `u` is exactly that item; a negative index
   * beyond the minimum length has none either.
   */
  lemma TupleIndexVariadic<T>(items: seq<TupleItem<T>>, n: int)
    requires FindUnpack(items).Some?
    ensures 0 <= n && n >= MinTupleLength(items) ==> TupleIndex(items, n).None?
    ensures 0 <= n < FindUnpack(items).value ==> TupleIndex(items, n) == Some(Single(items[n]))
    ensures n < 0 && n + MinTupleLength(items) < 0 ==> TupleIndex(items, n).None?
  {
  }

  /** With an unpack that is not last, `left[-1]` is the last item. */
  lemma TupleIndexLast<T>(items: seq<TupleItem<T>>)
    requires FindUnpack(items).Some? && FindUnpack(items).value < |items| - 1
    ensures TupleIndex(items, -1) == Some(Single(items[|items| - 1]))
  {
  }

  /** No unpacked item leaks into the type of an index: every member is a fixed item or the variadic element. */
  predicate NoUnpackIn<T>(r: IndexType<T>) {
    match r
    case Single(item) => !item.Unpack?
    case UnionOf(members) => forall k :: 0 <= k < |members| ==> !members[k].Unpack?
  }

  lemma TupleIndexNoUnpack<T>(items: seq<TupleItem<T>>, n: int)
    requires AtMostOneUnpack(items)
    ensures TupleIndex(items, n).Some? ==> NoUnpackIn(TupleIndex(items, n).value)
  {
    match FindUnpack(items)
    case None =>
    case Some(u) =>
      forall i | 0 <= i < |items| && i != u
        ensures !items[i].Unpack?
      {
        if i > u {
          assert !(items[u].Unpack? && items[i].Unpack?);
        }
      }
  }

  /**
   * The tuples a tuple type with its unpack at `u` stands for: the fixed
   * items around `k` copies of the variadic element.
   */
  function Expansion<T>(items: seq<TupleItem<T>>, u: nat, k: nat): (r: seq<TupleItem<T>>)
    requires u < |items| && items[u].Unpack?
    ensures |r| == |items| - 1 + k
  {
    items[..u] + seq(k, _ => Item(items[u].middle)) + items[u + 1..]
  }

  /** Python's `t[n]` on one such tuple: a negative index counts from the end. */
  function ExpansionIndex<T>(items: seq<TupleItem<T>>, u: nat, k: nat, n: int): Option<TupleItem<T>>
    requires u < |items| && items[u].Unpack?
  {
    var t := Expansion(items, u, k);
    var p := if n < 0 then n + |t| else n;
    if 0 <= p < |t| then Some(t[p]) else None
  }

  /** Position `p` of an expansion is a fixed item before the unpack, a copy of the element, or a fixed item after it. */
  lemma ExpansionAt<T>(items: seq<TupleItem<T>>, u: nat, k: nat, p: int)
    requires u < |items| && items[u].Unpack? && 0 <= p < |items| - 1 + k
    ensures Expansion(items, u, k)[p]
         == if p < u then items[p] else if p < u + k then Item(items[u].middle) else items[p - k + 1]
  {
  }

  /** The items an index type may be. */
  function Members<T>(r: IndexType<T>): seq<TupleItem<T>> {
    match r
    case Single(item) => [item]
    case UnionOf(members) => members
  }

  lemma MembersOfUnion<T>(members: seq<TupleItem<T>>)
    ensures Members(MakeUnion(members)) == members
  {
  }

  /** Some tuple the type stands for has `x` at index `n`. */
  ghost predicate SomeExpansionHas<T>(items: seq<TupleItem<T>>, u: nat, n: int, x: TupleItem<T>)
    requires u < |items| && items[u].Unpack?
  {
    exists k: nat :: k >= ExtraItems(items[u]) && ExpansionIndex(items, u, k, n) == Some(x)
  }

  /** Index `n` exists in every tuple the type stands for. */
  ghost predicate EveryExpansionHas<T>(items: seq<TupleItem<T>>, u: nat, n: int)
    requires u < |items| && items[u].Unpack?
  {
    forall k: nat :: k >= ExtraItems(items[u]) ==> ExpansionIndex(items, u, k, n).Some?
  }

  /**
   * With an unpack, `left[n]` has a type exactly when index `n` exists in
   * every tuple the type stands for, and the members of that type (the one
   * item, or the union's members) are exactly the items those tuples have
   * at index `n`.
   */
  lemma TupleIndexExpansions<T>(items: seq<TupleItem<T>>, n: int, x: TupleItem<T>)
    requires FindUnpack(items).Some?
    ensures TupleIndex(items, n).Some? <==> EveryExpansionHas(items, FindUnpack(items).value, n)
    ensures TupleIndex(items, n).Some? ==>
              (x in Members(TupleIndex(items, n).value) <==> SomeExpansionHas(items, FindUnpack(items).value, n, x))
  {
    var u := FindUnpack(items).value;
    var e := ExtraItems(items[u]);
    var minLen := MinTupleLength(items);
    if n >= 0 && n < minLen {
      InRangeEverywhere(items, u, n);
      if n < u {
        TupleIndexBeforeUnpack(items, u, n, x);
      } else {
        TupleIndexAfterUnpack(items, u, n, x);
      }
    } else if n < 0 && n + minLen >= 0 {
      InRangeEverywhere(items, u, n);
      if n + minLen >= u + e {
        TupleIndexFromEndFixed(items, u, n, x);
      } else {
        TupleIndexFromEndUnion(items, u, n, x);
      }
    } else {
      assert ExpansionIndex(items, u, e, n).None?;
    }
  }

  /** An index inside the shortest tuple is inside every longer one. */
  lemma InRangeEverywhere<T>(items: seq<TupleItem<T>>, u: nat, n: int)
    requires FindUnpack(items) == Some(u)
    requires n + MinTupleLength(items) >= 0 && n < MinTupleLength(items)
    ensures EveryExpansionHas(items, u, n)
  {
  }

  lemma TupleIndexBeforeUnpack<T>(items: seq<TupleItem<T>>, u: nat, n: int, x: TupleItem<T>)
    requires FindUnpack(items) == Some(u) && 0 <= n < u
    ensures TupleIndex(items, n) == Some(Single(items[n]))
    ensures x == items[n] <==> SomeExpansionHas(items, u, n, x)
  {
    var e := ExtraItems(items[u]);
    ExpansionAt(items, u, e, n);
    assert ExpansionIndex(items, u, e, n) == Some(items[n]);
    if SomeExpansionHas(items, u, n, x) {
      var k: nat :| k >= e && ExpansionIndex(items, u, k, n) == Some(x);
      ExpansionAt(items, u, k, n);
    }
  }

  /** The union a non-negative index at or after the unpack gives: the element, then the fixed items it may reach. */
  function AfterUnpackMembers<T>(items: seq<TupleItem<T>>, u: nat, n: int): seq<TupleItem<T>>
    requires u < |items| && items[u].Unpack? && u <= n < |items| - 1 + ExtraItems(items[u])
  {
    var e := ExtraItems(items[u]);
    var hi := if n - e + 2 > u + 1 then n - e + 2 else u + 1;
    [Item(items[u].middle)] + items[u + 1..hi]
  }

  lemma TupleIndexAfterUnpack<T>(items: seq<TupleItem<T>>, u: nat, n: int, x: TupleItem<T>)
    requires FindUnpack(items) == Some(u) && u <= n < MinTupleLength(items)
    ensures TupleIndex(items, n).Some?
    ensures x in Members(TupleIndex(items, n).value) <==> SomeExpansionHas(items, u, n, x)
  {
    var members := AfterUnpackMembers(items, u, n);
    assert TupleIndex(items, n) == Some(MakeUnion(members));
    MembersOfUnion(members);
    if x in members {
      AfterUnpackReached(items, u, n, x);
    }
    if SomeExpansionHas(items, u, n, x) {
      AfterUnpackOnly(items, u, n, x);
    }
  }

  lemma AfterUnpackReached<T>(items: seq<TupleItem<T>>, u: nat, n: int, x: TupleItem<T>)
    requires u < |items| && items[u].Unpack? && u <= n < |items| - 1 + ExtraItems(items[u])
    requires x in AfterUnpackMembers(items, u, n)
    ensures SomeExpansionHas(items, u, n, x)
  {
    var e := ExtraItems(items[u]);
    var middle := Item(items[u].middle);
    var hi := if n - e + 2 > u + 1 then n - e + 2 else u + 1;
    var k: nat;
    if x == middle {
      k := n - u + 1 + e;
    } else {
      var j :| u + 1 <= j < hi && items[j] == x;
      k := n - j + 1;
    }
    ExpansionAt(items, u, k, n);
    assert k >= e && ExpansionIndex(items, u, k, n) == Some(x);
  }

  lemma AfterUnpackOnly<T>(items: seq<TupleItem<T>>, u: nat, n: int, x: TupleItem<T>)
    requires u < |items| && items[u].Unpack? && u <= n < |items| - 1 + ExtraItems(items[u])
    requires SomeExpansionHas(items, u, n, x)
    ensures x in AfterUnpackMembers(items, u, n)
  {
    var e := ExtraItems(items[u]);
    var members := AfterUnpackMembers(items, u, n);
    var k: nat :| k >= e && ExpansionIndex(items, u, k, n) == Some(x);
    ExpansionAt(items, u, k, n);
    if n >= u + k {
      assert members[n - k + 1 - u] == x;
    }
  }

  lemma TupleIndexFromEndFixed<T>(items: seq<TupleItem<T>>, u: nat, n: int, x: TupleItem<T>)
    requires FindUnpack(items) == Some(u) && n < 0
    requires n + MinTupleLength(items) >= u + ExtraItems(items[u])
    ensures TupleIndex(items, n) == Some(Single(items[n + MinTupleLength(items) - ExtraItems(items[u]) + 1]))
    ensures x == items[n + MinTupleLength(items) - ExtraItems(items[u]) + 1] <==> SomeExpansionHas(items, u, n, x)
  {
    var e := ExtraItems(items[u]);
    var j := n + MinTupleLength(items) - e + 1;
    ExpansionAt(items, u, e, n + |items| - 1 + e);
    assert ExpansionIndex(items, u, e, n) == Some(items[j]);
    if SomeExpansionHas(items, u, n, x) {
      var k: nat :| k >= e && ExpansionIndex(items, u, k, n) == Some(x);
      ExpansionAt(items, u, k, n + |items| - 1 + k);
    }
  }

  /** The union a negative index that may reach the unpack gives: the fixed items it may reach, then the element. */
  function FromEndMembers<T>(items: seq<TupleItem<T>>, u: nat, n: int): seq<TupleItem<T>>
    requires u < |items| && items[u].Unpack? && n < 0 && 0 <= n + |items| - 1 + ExtraItems(items[u])
    requires n + |items| - 1 < u
  {
    var m := n + |items| - 1 + ExtraItems(items[u]);
    var lo := if m < u then m else u;
    items[lo..u] + [Item(items[u].middle)]
  }

  lemma TupleIndexFromEndUnion<T>(items: seq<TupleItem<T>>, u: nat, n: int, x: TupleItem<T>)
    requires FindUnpack(items) == Some(u) && n < 0 && n + MinTupleLength(items) >= 0
    requires n + MinTupleLength(items) < u + ExtraItems(items[u])
    ensures TupleIndex(items, n).Some?
    ensures x in Members(TupleIndex(items, n).value) <==> SomeExpansionHas(items, u, n, x)
  {
    var members := FromEndMembers(items, u, n);
    assert TupleIndex(items, n) == Some(MakeUnion(members));
    MembersOfUnion(members);
    if x in members {
      FromEndReached(items, u, n, x);
    }
    if SomeExpansionHas(items, u, n, x) {
      FromEndOnly(items, u, n, x);
    }
  }

  lemma FromEndReached<T>(items: seq<TupleItem<T>>, u: nat, n: int, x: TupleItem<T>)
    requires u < |items| && items[u].Unpack? && n < 0 && 0 <= n + |items| - 1 + ExtraItems(items[u])
    requires n + |items| - 1 < u
    requires x in FromEndMembers(items, u, n)
    ensures SomeExpansionHas(items, u, n, x)
  {
    var e := ExtraItems(items[u]);
    var m := n + |items| - 1 + e;
    var middle := Item(items[u].middle);
    var lo := if m < u then m else u;
    var k: nat;
    if x == middle {
      k := e + u + 1;
    } else {
      var j :| lo <= j < u && items[j] == x;
      k := e + j - m;
    }
    ExpansionAt(items, u, k, n + |items| - 1 + k);
    assert k >= e && ExpansionIndex(items, u, k, n) == Some(x);
  }

  lemma FromEndOnly<T>(items: seq<TupleItem<T>>, u: nat, n: int, x: TupleItem<T>)
    requires u < |items| && items[u].Unpack? && n < 0 && 0 <= n + |items| - 1 + ExtraItems(items[u])
    requires n + |items| - 1 < u
    requires SomeExpansionHas(items, u, n, x)
    ensures x in FromEndMembers(items, u, n)
  {
    var e := ExtraItems(items[u]);
    var m := n + |items| - 1 + e;
    var lo := if m < u then m else u;
    var members := FromEndMembers(items, u, n);
    var k: nat :| k >= e && ExpansionIndex(items, u, k, n) == Some(x);
    var p := n + |items| - 1 + k;
    ExpansionAt(items, u, k, p);
    if p < u {
      assert members[p - lo] == x;
    }
  }

  // ---------------------------------------------------------------------------
  // try_getting_int_literals

  /** The index expressions looked at syntactically: `5`, `-5`, `+5`, and anything else. */
  datatype IndexExpr = IntExpr(value: int) | UnaryExpr(op: string, operand: IndexExpr) | OtherIndexExpr

  /**
   * The inferred type of an index, as far as literals go: an `int` literal,
   * another literal, an instance (with its last known literal value, if
   * any), a union, or another type.
   */
  datatype LitType =
    | IntLiteral(value: int)
    | OtherLiteral
    | Instance(lastKnownValue: Option<LitType>)
    | UnionType(items: seq<LitType>)
    | OtherType

  /** The values of a union all of whose items are `int` literals; `None` as soon as one is not. */
  function UnionInts(items: seq<LitType>): (r: Option<seq<int>>)
    decreases |items|
  {
    if items == [] then Some([])
    else if !items[0].IntLiteral? then None
    else
      match UnionInts(items[1..])
      case None => None
      case Some(vs) => Some([items[0].value] + vs)
  }

  /** A union yields values exactly when every item is an `int` literal, and then yields theirs, in order. */
  lemma {:induction false} UnionIntsSpec(items: seq<LitType>)
    ensures UnionInts(items).Some? <==> forall i :: 0 <= i < |items| ==> items[i].IntLiteral?
    ensures UnionInts(items).Some? ==>
              |UnionInts(items).value| == |items|
              && forall i :: 0 <= i < |items| ==> UnionInts(items).value[i] == items[i].value
    decreases |items|
  {
    if items != [] {
      UnionIntsSpec(items[1..]);
      assert forall i :: 1 <= i < |items| ==> items[i] == items[1..][i - 1];
    }
  }

  /**
   * What `try_getting_int_literals` returns for `index` when the checker
   * infers `typ` for it: the literal forms first, then the type's literal
   * values.
   */
  function IntLiterals(index: IndexExpr, typ: LitType): Option<seq<int>> {
    match index
    case IntExpr(v) => Some([v])
    case UnaryExpr(op, operand) =>
      if op == "-" && operand.IntExpr? then Some([-1 * operand.value])
      else if op == "+" && operand.IntExpr? then Some([operand.value])
      else TypeIntLiterals(typ)
    case OtherIndexExpr => TypeIntLiterals(typ)
  }

  /** The literal values of an inferred type, looking through an instance's last known value. */
  function TypeIntLiterals(typ: LitType): Option<seq<int>> {
    var t := if typ.Instance? && typ.lastKnownValue.Some? then typ.lastKnownValue.value else typ;
    match t
    case IntLiteral(v) => Some([v])
    case UnionType(items) => UnionInts(items)
    case _ => None
  }

  /** The syntactic forms give their value, negated for a unary minus, whatever the inferred type. */
  lemma IntLiteralsSyntactic(v: int, typ: LitType)
    ensures IntLiterals(IntExpr(v), typ) == Some([v])
    ensures IntLiterals(UnaryExpr("-", IntExpr(v)), typ) == Some([-v])
    ensures IntLiterals(UnaryExpr("+", IntExpr(v)), typ) == Some([v])
  {
    assert "-" != "+" by { assert "-"[0] != "+"[0]; }
  }

  /** `try_getting_int_literals`, with the union walked by a loop that gives up at the first non-literal. */
  method TryGettingIntLiterals(index: IndexExpr, typ: LitType) returns (r: Option<seq<int>>)
    ensures r == IntLiterals(index, typ)
  {
    if index.IntExpr? {
      return Some([index.value]);
    } else if index.UnaryExpr? {
      if index.op == "-" {
        var operand := index.operand;
        if operand.IntExpr? {
          return Some([-1 * operand.value]);
        }
      }
      if index.op == "+" {
        var operand := index.operand;
        if operand.IntExpr? {
          return Some([operand.value]);
        }
      }
    }
    var t := typ;
    if t.Instance? && t.lastKnownValue.Some? {
      t := t.lastKnownValue.value;
    }
    if t.IntLiteral? {
      return Some([t.value]);
    }
    if t.UnionType? {
      var items := t.items;
      UnionIntsSpec(items);
      var out := [];
      var i := 0;
      while i < |items|
        invariant 0 <= i <= |items| && |out| == i
        invariant forall k :: 0 <= k < i ==> items[k].IntLiteral? && out[k] == items[k].value
      {
        if items[i].IntLiteral? {
          out := out + [items[i].value];
        } else {
          return None;
        }
        i := i + 1;
      }
      assert UnionInts(items).Some?;
      assert out == UnionInts(items).value;
      return Some(out);
    }
    return None;
  }

  // ---------------------------------------------------------------------------
  // is_duplicate_mapping

  /** Every actual mapped to the formal is a `**kwargs` whose type is not a `TypedDict`. */
  predicate AllUncertainKwargs(mapping: seq<nat>, actualIsTypedDict: seq<bool>, actualKinds: seq<ArgKind>)
    requires forall k :: 0 <= k < |mapping| ==> mapping[k] < |actualKinds| && mapping[k] < |actualIsTypedDict|
  {
    forall k :: 0 <= k < |mapping| ==> actualKinds[mapping[k]] == Star2 && !actualIsTypedDict[mapping[k]]
  }

  /**
   * `is_duplicate_mapping`: several actuals feed one formal, and they are
   * neither exactly `*args, **kwargs` nor all uncertain `**kwargs`.
   * `actualIsTypedDict` says which actuals' types are `TypedDict`s.
   */
  function IsDuplicateMapping(mapping: seq<nat>, actualIsTypedDict: seq<bool>, actualKinds: seq<ArgKind>): bool
    requires forall k :: 0 <= k < |mapping| ==> mapping[k] < |actualKinds| && mapping[k] < |actualIsTypedDict|
  {
    |mapping| > 1
    && !(|mapping| == 2 && actualKinds[mapping[0]] == Star && actualKinds[mapping[1]] == Star2)
    && !AllUncertainKwargs(mapping, actualIsTypedDict, actualKinds)
  }

  /**
   * The exemptions: one actual or none, the pair `f(*args, **kwargs)`, and
   * any number of non-`TypedDict` `**kwargs`, are never duplicates.
   */
  lemma DuplicateMappingExempt(mapping: seq<nat>, actualIsTypedDict: seq<bool>, actualKinds: seq<ArgKind>)
    requires forall k :: 0 <= k < |mapping| ==> mapping[k] < |actualKinds| && mapping[k] < |actualIsTypedDict|
    ensures |mapping| <= 1 ==> !IsDuplicateMapping(mapping, actualIsTypedDict, actualKinds)
    ensures |mapping| == 2 && actualKinds[mapping[0]] == Star && actualKinds[mapping[1]] == Star2
            ==> !IsDuplicateMapping(mapping, actualIsTypedDict, actualKinds)
    ensures (forall k :: 0 <= k < |mapping| ==> actualKinds[mapping[k]] == Star2 && !actualIsTypedDict[mapping[k]])
            ==> !IsDuplicateMapping(mapping, actualIsTypedDict, actualKinds)
  {
  }

  /** Two or more actuals, one of which is neither `*args` nor `**kwargs`, are always a duplicate. */
  lemma DuplicateMappingPlain(mapping: seq<nat>, actualIsTypedDict: seq<bool>, actualKinds: seq<ArgKind>, k: nat)
    requires forall j :: 0 <= j < |mapping| ==> mapping[j] < |actualKinds| && mapping[j] < |actualIsTypedDict|
    requires |mapping| > 1 && k < |mapping| && !actualKinds[mapping[k]].IsStar()
    ensures IsDuplicateMapping(mapping, actualIsTypedDict, actualKinds)
  {
    assert actualKinds[mapping[k]] != Star2;
  }

  /** Two or more actuals other than `*args, **kwargs`, one a `TypedDict` `**kwargs`, are a duplicate. */
  lemma DuplicateMappingTypedDict(mapping: seq<nat>, actualIsTypedDict: seq<bool>, actualKinds: seq<ArgKind>, k: nat)
    requires forall j :: 0 <= j < |mapping| ==> mapping[j] < |actualKinds| && mapping[j] < |actualIsTypedDict|
    requires |mapping| > 1 && k < |mapping| && actualIsTypedDict[mapping[k]]
    requires !(|mapping| == 2 && actualKinds[mapping[0]] == Star && actualKinds[mapping[1]] == Star2)
    ensures IsDuplicateMapping(mapping, actualIsTypedDict, actualKinds)
  {
    assert !(actualKinds[mapping[k]] == Star2 && !actualIsTypedDict[mapping[k]]);
  }

  // ---------------------------------------------------------------------------
  // plausible_overload_call_targets

  /**
   * An overload item as the filter sees it: its signature, whether it takes
   * a `ParamSpec`, whether `check_argument_count` accepts the call against it
   * (a call into the checker, given here as its answer), and whether it has
   * `*args` and `**kwargs`.
   */
  datatype OverloadItem<T> = OverloadItem(sig: T, hasParamSpec: bool, countMatches: bool, isVarArg: bool, isKwArg: bool)

  /** Where the loop puts an item: first, with the other plausible ones, or nowhere. */
  datatype Placement = StarMatch | PlainMatch | NoMatch

  function Place<T>(item: OverloadItem<T>, argsHaveVarArg: bool, argsHaveKwArg: bool): Placement {
    if item.hasParamSpec then PlainMatch
    else if item.countMatches then
      if argsHaveVarArg && item.isVarArg then StarMatch
      else if argsHaveKwArg && item.isKwArg then StarMatch
      else PlainMatch
    else NoMatch
  }

  /** The items with a given placement, in order. */
  function Placed<T>(items: seq<OverloadItem<T>>, p: Placement, argsHaveVarArg: bool, argsHaveKwArg: bool): (r: seq<OverloadItem<T>>)
    ensures |r| <= |items|
    decreases |items|
  {
    if items == [] then []
    else
      var init := items[..|items| - 1];
      var last := items[|items| - 1];
      Placed(init, p, argsHaveVarArg, argsHaveKwArg) + (if Place(last, argsHaveVarArg, argsHaveKwArg) == p then [last] else [])
  }

  /** An item is placed exactly when it is one of the items and has that placement. */
  lemma {:induction false} PlacedMember<T>(items: seq<OverloadItem<T>>, p: Placement, argsHaveVarArg: bool, argsHaveKwArg: bool, x: OverloadItem<T>)
    ensures x in Placed(items, p, argsHaveVarArg, argsHaveKwArg) <==> x in items && Place(x, argsHaveVarArg, argsHaveKwArg) == p
    decreases |items|
  {
    if items != [] {
      var init := items[..|items| - 1];
      PlacedMember(init, p, argsHaveVarArg, argsHaveKwArg, x);
      InitLast(items);
      assert x in items <==> x in init || x == items[|items| - 1];
    }
  }

  /**
   * Placing keeps the items' relative order: placing a list made of two parts
   * places each part on its own and puts the results one after the other.
   */
  lemma {:induction false} PlacedConcat<T>(a: seq<OverloadItem<T>>, b: seq<OverloadItem<T>>, p: Placement, argsHaveVarArg: bool, argsHaveKwArg: bool)
    ensures Placed(a + b, p, argsHaveVarArg, argsHaveKwArg)
            == Placed(a, p, argsHaveVarArg, argsHaveKwArg) + Placed(b, p, argsHaveVarArg, argsHaveKwArg)
    decreases |b|
  {
    if b == [] {
      assert a + b == a;
    } else {
      var init := b[..|b| - 1];
      assert (a + b)[..|a + b| - 1] == a + init;
      assert (a + b)[|a + b| - 1] == b[|b| - 1];
      PlacedConcat(a, init, p, argsHaveVarArg, argsHaveKwArg);
    }
  }

  /** Some actual is a star argument of that kind whose type has no fixed shape. */
  function ArgsHaveStar(argKinds: seq<ArgKind>, argHasShape: seq<bool>, kind: ArgKind): (r: bool)
    ensures r <==> exists i :: 0 <= i < |argKinds| && i < |argHasShape| && argKinds[i] == kind && !argHasShape[i]
    decreases |argKinds|
  {
    if argKinds == [] || argHasShape == [] then false
    else (argKinds[0] == kind && !argHasShape[0]) || ArgsHaveStar(argKinds[1..], argHasShape[1..], kind)
  }

  /**
   * The result of `plausible_overload_call_targets`: the plausible items
   * that take the caller's shapeless `*args`/`**kwargs`, then the other
   * plausible ones, each part in the overload's order.
   */
  function PlausibleTargets<T>(argKinds: seq<ArgKind>, argHasShape: seq<bool>, items: seq<OverloadItem<T>>): seq<OverloadItem<T>> {
    var v, k := ArgsHaveStar(argKinds, argHasShape, Star), ArgsHaveStar(argKinds, argHasShape, Star2);
    Placed(items, StarMatch, v, k) + Placed(items, PlainMatch, v, k)
  }

  /** `plausible_overload_call_targets`: flag the caller's shapeless star arguments, then sort the items into two lists. */
  method PlausibleOverloadCallTargets<T>(argKinds: seq<ArgKind>, argHasShape: seq<bool>, items: seq<OverloadItem<T>>)
    returns (r: seq<OverloadItem<T>>)
    ensures r == PlausibleTargets(argKinds, argHasShape, items)
  {
    var argsHaveVarArg, argsHaveKwArg := false, false;
    var n := if |argKinds| < |argHasShape| then |argKinds| else |argHasShape|;
    var i := 0;
    while i < n
      invariant 0 <= i <= n
      invariant argsHaveVarArg <==> exists j :: 0 <= j < i && argKinds[j] == Star && !argHasShape[j]
      invariant argsHaveKwArg <==> exists j :: 0 <= j < i && argKinds[j] == Star2 && !argHasShape[j]
    {
      if argKinds[i] == Star && !argHasShape[i] {
        argsHaveVarArg := true;
      }
      if argKinds[i] == Star2 && !argHasShape[i] {
        argsHaveKwArg := true;
      }
      i := i + 1;
    }
    var starMatches, matches := [], [];
    var j := 0;
    while j < |items|
      invariant 0 <= j <= |items|
      invariant starMatches == Placed(items[..j], StarMatch, argsHaveVarArg, argsHaveKwArg)
      invariant matches == Placed(items[..j], PlainMatch, argsHaveVarArg, argsHaveKwArg)
    {
      TakeTake(items, j + 1, j);
      var typ := items[j];
      if typ.hasParamSpec {
        matches := matches + [typ];
      } else if typ.countMatches {
        if argsHaveVarArg && typ.isVarArg {
          starMatches := starMatches + [typ];
        } else if argsHaveKwArg && typ.isKwArg {
          starMatches := starMatches + [typ];
        } else {
          matches := matches + [typ];
        }
      }
      j := j + 1;
    }
    TakeAll(items);
    r := starMatches + matches;
  }

  /**
   * The targets are exactly the plausible items, and every item that takes
   * the caller's star arguments comes before every other.
   */
  lemma PlausibleTargetsOrder<T>(argKinds: seq<ArgKind>, argHasShape: seq<bool>, items: seq<OverloadItem<T>>, i: nat, j: nat)
    requires i < j < |PlausibleTargets(argKinds, argHasShape, items)|
    ensures var v, k := ArgsHaveStar(argKinds, argHasShape, Star), ArgsHaveStar(argKinds, argHasShape, Star2);
            var r := PlausibleTargets(argKinds, argHasShape, items);
            r[j] in items && Place(r[j], v, k) != NoMatch
            && (Place(r[j], v, k) == StarMatch ==> Place(r[i], v, k) == StarMatch)
  {
    var v, k := ArgsHaveStar(argKinds, argHasShape, Star), ArgsHaveStar(argKinds, argHasShape, Star2);
    var stars, plain := Placed(items, StarMatch, v, k), Placed(items, PlainMatch, v, k);
    var r := stars + plain;
    if j < |stars| {
      PlacedMember(items, StarMatch, v, k, r[j]);
      PlacedMember(items, StarMatch, v, k, r[i]);
      assert r[i] in stars;
    } else {
      assert r[j] == plain[j - |stars|];
      PlacedMember(items, PlainMatch, v, k, r[j]);
    }
  }

  /** Every plausible item is among the targets. */
  lemma PlausibleTargetsComplete<T>(argKinds: seq<ArgKind>, argHasShape: seq<bool>, items: seq<OverloadItem<T>>, x: OverloadItem<T>)
    requires x in items
    ensures var v, k := ArgsHaveStar(argKinds, argHasShape, Star), ArgsHaveStar(argKinds, argHasShape, Star2);
            Place(x, v, k) != NoMatch ==> x in PlausibleTargets(argKinds, argHasShape, items)
  {
    var v, k := ArgsHaveStar(argKinds, argHasShape, Star), ArgsHaveStar(argKinds, argHasShape, Star2);
    PlacedMember(items, StarMatch, v, k, x);
    PlacedMember(items, PlainMatch, v, k, x);
  }

  // ---------------------------------------------------------------------------
  // combine_function_signatures: the argument kinds

  /** Two kinds merge when equal, and two positional kinds merge into `ARG_POS`. */
  function MergeKind(a: ArgKind, b: ArgKind): Option<ArgKind> {
    if a == b then Some(a)
    else if a.IsPositional(false) && b.IsPositional(false) then Some(Pos)
    else None
  }

  /** Merge a target's kinds into the kinds so far, position by position; `None` if any pair clashes. */
  function MergeKinds(acc: seq<ArgKind>, target: seq<ArgKind>): (r: Option<seq<ArgKind>>)
    requires |acc| == |target|
    ensures r.Some? ==> |r.value| == |acc|
    decreases |acc|
  {
    if acc == [] then Some([])
    else
      var k := |acc| - 1;
      match MergeKinds(acc[..k], target[..k])
      case None => None
      case Some(init) =>
        match MergeKind(acc[k], target[k])
        case None => None
        case Some(m) => Some(init + [m])
  }

  /**
   * The merged kinds after the first targets, starting from those of the
   * first signature; `None` once a target has another number of arguments
   * or a clashing kind (`too_complex`).
   */
  function CombinedKinds(first: seq<ArgKind>, targets: seq<seq<ArgKind>>): (r: Option<seq<ArgKind>>)
    ensures r.Some? ==> |r.value| == |first|
    decreases |targets|
  {
    if targets == [] then Some(first)
    else
      match CombinedKinds(first, targets[..|targets| - 1])
      case None => None
      case Some(acc) =>
        var t := targets[|targets| - 1];
        if |acc| != |t| then None else MergeKinds(acc, t)
  }

  /** All kinds in column `i` are the first signature's kind there. */
  predicate ColumnSame(first: seq<ArgKind>, targets: seq<seq<ArgKind>>, i: nat)
    requires i < |first|
  {
    forall t :: 0 <= t < |targets| ==> i < |targets[t]| && targets[t][i] == first[i]
  }

  /** All kinds in column `i` are positional (`ARG_POS` or `ARG_OPT`). */
  predicate ColumnPositional(first: seq<ArgKind>, targets: seq<seq<ArgKind>>, i: nat)
    requires i < |first|
  {
    first[i].IsPositional(false) && forall t :: 0 <= t < |targets| ==> i < |targets[t]| && targets[t][i].IsPositional(false)
  }

  /** Pairwise merging succeeds exactly when each position merges, and gives each position's merge. */
  lemma {:induction false} MergeKindsSpec(acc: seq<ArgKind>, target: seq<ArgKind>)
    requires |acc| == |target|
    ensures MergeKinds(acc, target).Some? <==> forall i :: 0 <= i < |acc| ==> MergeKind(acc[i], target[i]).Some?
    ensures MergeKinds(acc, target).Some? ==>
              forall i :: 0 <= i < |acc| ==> MergeKinds(acc, target).value[i] == MergeKind(acc[i], target[i]).value
    decreases |acc|
  {
    if acc != [] {
      var k := |acc| - 1;
      MergeKindsSpec(acc[..k], target[..k]);
      assert forall i :: 0 <= i < k ==> acc[..k][i] == acc[i] && target[..k][i] == target[i];
    }
  }

  /** Every target has the first signature's length, and each column is all the same or all positional. */
  predicate Mergeable(first: seq<ArgKind>, targets: seq<seq<ArgKind>>) {
    (forall t :: 0 <= t < |targets| ==> |targets[t]| == |first|)
    && forall i :: 0 <= i < |first| ==> ColumnSame(first, targets, i) || ColumnPositional(first, targets, i)
  }

  /** The merged kind of a column: its common kind, or `ARG_POS`. */
  predicate MergedAs(first: seq<ArgKind>, targets: seq<seq<ArgKind>>, kinds: seq<ArgKind>)
    requires |kinds| == |first|
  {
    forall i :: 0 <= i < |first| ==> kinds[i] == if ColumnSame(first, targets, i) then first[i] else Pos
  }

  /**
   * The merge succeeds exactly when every target has the first signature's
   * length and, in every column, the kinds are all the same or all
   * positional; a column of equal kinds keeps its kind and any other
   * column becomes `ARG_POS`.
   */
  lemma {:induction false} CombinedKindsSpec(first: seq<ArgKind>, targets: seq<seq<ArgKind>>)
    ensures CombinedKinds(first, targets).Some? <==> Mergeable(first, targets)
    ensures CombinedKinds(first, targets).Some? ==> MergedAs(first, targets, CombinedKinds(first, targets).value)
    decreases |targets|
  {
    if targets != [] {
      var init := targets[..|targets| - 1];
      CombinedKindsSpec(first, init);
      MergeablePrefix(first, targets);
      match CombinedKinds(first, init)
      case None =>
      case Some(acc) =>
        if |acc| == |targets[|targets| - 1]| {
          CombinedStep(first, targets, acc);
        }
    }
  }

  /** Whatever merges for all targets merges for the earlier ones. */
  lemma MergeablePrefix(first: seq<ArgKind>, targets: seq<seq<ArgKind>>)
    requires targets != []
    ensures Mergeable(first, targets) ==> Mergeable(first, targets[..|targets| - 1])
  {
    var init := targets[..|targets| - 1];
    if Mergeable(first, targets) {
      forall i | 0 <= i < |first|
        ensures ColumnSame(first, init, i) || ColumnPositional(first, init, i)
      {
        assert ColumnSame(first, targets, i) || ColumnPositional(first, targets, i);
      }
    }
  }

  /** The induction step of the merge, when the earlier targets merged into `acc`. */
  lemma CombinedStep(first: seq<ArgKind>, targets: seq<seq<ArgKind>>, acc: seq<ArgKind>)
    requires targets != [] && |acc| == |first| == |targets[|targets| - 1]|
    requires Mergeable(first, targets[..|targets| - 1]) && MergedAs(first, targets[..|targets| - 1], acc)
    ensures MergeKinds(acc, targets[|targets| - 1]).Some? <==> Mergeable(first, targets)
    ensures MergeKinds(acc, targets[|targets| - 1]).Some? ==> MergedAs(first, targets, MergeKinds(acc, targets[|targets| - 1]).value)
  {
    var init, t := targets[..|targets| - 1], targets[|targets| - 1];
    MergeKindsSpec(acc, t);
    SameLengthsStep(first, targets, init);
    forall i | 0 <= i < |first|
      ensures MergeKind(acc[i], t[i]).Some? <==> ColumnSame(first, targets, i) || ColumnPositional(first, targets, i)
      ensures MergeKind(acc[i], t[i]).Some? ==>
                MergeKind(acc[i], t[i]).value == if ColumnSame(first, targets, i) then first[i] else Pos
    {
      CombinedColumn(first, targets, i, acc);
    }
  }

  /** The last target has the right length, so all have once the earlier ones do. */
  lemma SameLengthsStep(first: seq<ArgKind>, targets: seq<seq<ArgKind>>, init: seq<seq<ArgKind>>)
    requires targets != [] && init == targets[..|targets| - 1] && |targets[|targets| - 1]| == |first|
    requires forall s :: 0 <= s < |init| ==> |init[s]| == |first|
    ensures forall s :: 0 <= s < |targets| ==> |targets[s]| == |first|
  {
    forall s | 0 <= s < |targets|
      ensures |targets[s]| == |first|
    {
      if s < |init| {
        assert targets[s] == init[s];
      }
    }
  }

  /** One column of the induction step: merging the last target into a column of the earlier merge. */
  lemma CombinedColumn(first: seq<ArgKind>, targets: seq<seq<ArgKind>>, i: nat, acc: seq<ArgKind>)
    requires targets != [] && i < |first| == |acc| == |targets[|targets| - 1]|
    requires var init := targets[..|targets| - 1];
             (ColumnSame(first, init, i) || ColumnPositional(first, init, i))
             && acc[i] == if ColumnSame(first, init, i) then first[i] else Pos
    ensures var t := targets[|targets| - 1];
            (MergeKind(acc[i], t[i]).Some? <==> ColumnSame(first, targets, i) || ColumnPositional(first, targets, i))
            && (MergeKind(acc[i], t[i]).Some? ==>
                  MergeKind(acc[i], t[i]).value == if ColumnSame(first, targets, i) then first[i] else Pos)
  {
    var init, t := targets[..|targets| - 1], targets[|targets| - 1];
    assert forall s :: 0 <= s < |init| ==> init[s] == targets[s];
    if ColumnSame(first, init, i) && t[i] == first[i] {
      assert ColumnSame(first, targets, i);
    }
  }

  /**
   * The kind loop of `combine_function_signatures`: walk the signatures'
   * kinds, starting from a copy of the first one's, merging position by
   * position and stopping at the first clash or length mismatch.
   */
  method CombineKinds(callables: seq<seq<ArgKind>>) returns (newKinds: seq<ArgKind>, tooComplex: bool)
    requires |callables| > 0
    ensures tooComplex <==> CombinedKinds(callables[0], callables).None?
    ensures !tooComplex ==> newKinds == CombinedKinds(callables[0], callables).value
  {
    newKinds := callables[0];
    tooComplex := false;
    var c := 0;
    while c < |callables|
      invariant 0 <= c <= |callables|
      invariant CombinedKinds(callables[0], callables[..c]) == Some(newKinds)
    {
      TakeTake(callables, c + 1, c);
      var target := callables[c];
      if |newKinds| != |target| {
        tooComplex := true;
        CombinedNoneExtends(callables[0], callables, c + 1);
        return;
      }
      MergeKindsSpec(newKinds, target);
      ghost var acc := newKinds;
      var i := 0;
      while i < |newKinds|
        invariant 0 <= i <= |newKinds| == |acc|
        invariant forall j :: 0 <= j < i ==> MergeKind(acc[j], target[j]).Some? && newKinds[j] == MergeKind(acc[j], target[j]).value
        invariant forall j :: i <= j < |newKinds| ==> newKinds[j] == acc[j]
      {
        if newKinds[i] == target[i] {
        } else if newKinds[i].IsPositional(false) && target[i].IsPositional(false) {
          newKinds := newKinds[i := Pos];
        } else {
          tooComplex := true;
          CombinedNoneExtends(callables[0], callables, c + 1);
          return;
        }
        i := i + 1;
      }
      assert newKinds == MergeKinds(acc, target).value;
      c := c + 1;
    }
    TakeAll(callables);
  }

  /** Once the merge has failed, more targets do not revive it. */
  lemma {:induction false} CombinedNoneExtends(first: seq<ArgKind>, targets: seq<seq<ArgKind>>, c: nat)
    requires c <= |targets| && CombinedKinds(first, targets[..c]).None?
    ensures CombinedKinds(first, targets).None?
    decreases |targets| - c
  {
    if c < |targets| {
      TakeTake(targets, c + 1, c);
      CombinedNoneExtends(first, targets, c + 1);
    } else {
      TakeAll(targets);
    }
  }
}
