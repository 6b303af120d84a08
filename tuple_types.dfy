/**
 * Tuple types with at most one unpacked variadic item, as mypy represents
 * `tuple[int, *tuple[str, ...], bytes]` or `tuple[int, *Ts]`. Only the
 * tuple structure matters: the item types are an abstract type `T`.
 */
module TupleTypes {
  import opened Wrappers

  /**
   * An item of a tuple type: an ordinary type, or an unpacked variadic item
   * `*tuple[X, ...]` or `*Ts`, given by its element type `X` (for a
   * `TypeVarTuple`, the element of its `tuple[X, ...]` upper bound) and, for
   * a `TypeVarTuple`, its minimum length.
   */
  datatype TupleItem<T> = Item(t: T) | Unpack(middle: T, typeVarTupleMinLen: Option<nat>)

  /** `find_unpack_in_list`: the position of the unpacked item, if any. */
  function FindUnpack<T>(items: seq<TupleItem<T>>): (r: Option<nat>)
    ensures r.None? <==> forall i :: 0 <= i < |items| ==> !items[i].Unpack?
    ensures r.Some? ==> r.value < |items| && items[r.value].Unpack?
                        && forall i :: 0 <= i < r.value ==> !items[i].Unpack?
    decreases |items|
  {
    if items == [] then None
    else if items[0].Unpack? then Some(0)
    else
      match FindUnpack(items[1..])
      case None => None
      case Some(j) => Some(j + 1)
  }

  /** A tuple type has at most one unpacked item. */
  predicate AtMostOneUnpack<T>(items: seq<TupleItem<T>>) {
    forall i, j :: 0 <= i < j < |items| ==> !(items[i].Unpack? && items[j].Unpack?)
  }

  /** The number of items a variadic item adds at least: a `TypeVarTuple`'s minimum length, else none. */
  function ExtraItems<T>(unpack: TupleItem<T>): nat
    requires unpack.Unpack?
  {
    if unpack.typeVarTupleMinLen.Some? then unpack.typeVarTupleMinLen.value else 0
  }

  /** The only unpacked item of `items` is at `u`. */
  predicate OnlyUnpackAt<T>(items: seq<TupleItem<T>>, u: nat) {
    u < |items| && items[u].Unpack? && forall i :: 0 <= i < |items| && i != u ==> items[i].Item?
  }

  /** With at most one unpack, the first one found is the only one. */
  lemma OnlyUnpackAtFound<T>(items: seq<TupleItem<T>>)
    requires AtMostOneUnpack(items) && FindUnpack(items).Some?
    ensures OnlyUnpackAt(items, FindUnpack(items).value)
  {
    var u := FindUnpack(items).value;
    forall i | 0 <= i < |items| && i != u
      ensures items[i].Item?
    {
      if i < u {
      } else {
        assert !(items[u].Unpack? && items[i].Unpack?);
      }
    }
  }
}
