/**
 * The parts of mypyc's runtime header (mypyc/lib-rt/CPy.h) that touch object
 * reference counts or walk a vtable: the tagged-integer reference-count
 * helpers, the three conversions from a Python int object to a `CPyTagged`,
 * and the backwards search through a vtable's trait section.
 *
 * Objects are identified by their (even, tag-free) address; a `Heap` holds the
 * reference count of every object the operations may touch.
 */
module CpyRuntime {
  import opened TaggedInt

  /** `(CPyTagged)object | CPY_INT_TAG`: a long tagged integer pointing at `obj`. */
  function Tag(obj: Word): Word {
    Or(obj, INT_TAG)
  }

  /** `CPyTagged_LongAsObject`: the object address under a long tagged integer. */
  function LongAsObject(x: Word): Word {
    ClearTag(x)
  }

  lemma {:induction false} BitOrZero(a: nat, n: nat)
    requires a < Pow2(n)
    ensures BitOr(a, 0, n) == a
  {
    if n > 0 {
      BitOrZero(a / 2, n - 1);
    }
  }

  /** Tagging an aligned address gives a long integer that leads back to the address. */
  lemma TagRoundTrip(obj: Word)
    requires obj % 2 == 0
    ensures Tag(obj) == obj + 1
    ensures CheckLong(Tag(obj)) && LongAsObject(Tag(obj)) == obj
  {
    Pow2Values();
    BitOrZero(obj / 2, 63);
    LowBit(1, BitOr(obj / 2, 0, 63));
  }

  /** Reference counts of the objects in play, by address. */
  class Heap {
    var refcnt: map<Word, int>

    constructor (counts: map<Word, int>)
      ensures refcnt == counts
    {
      refcnt := counts;
    }

    /** `Py_INCREF`. */
    method IncRef(obj: Word)
      requires obj in refcnt
      modifies this
      ensures refcnt == old(refcnt)[obj := old(refcnt)[obj] + 1]
    {
      refcnt := refcnt[obj := refcnt[obj] + 1];
    }

    /** `Py_DECREF`; freeing an object whose count reaches zero is not modelled. */
    method DecRef(obj: Word)
      requires obj in refcnt
      modifies this
      ensures refcnt == old(refcnt)[obj := old(refcnt)[obj] - 1]
    {
      refcnt := refcnt[obj := refcnt[obj] - 1];
    }

    /** `CPyTagged_INCREF`: only a long integer owns a reference. */
    method TaggedIncRef(x: Word)
      requires CheckLong(x) ==> LongAsObject(x) in refcnt
      modifies this
      ensures CheckShort(x) ==> refcnt == old(refcnt)
      ensures CheckLong(x) ==>
                refcnt == old(refcnt)[LongAsObject(x) := old(refcnt)[LongAsObject(x)] + 1]
    {
      if CheckLong(x) {
        IncRef(LongAsObject(x));
      }
    }

    /** `CPyTagged_DECREF`. */
    method TaggedDecRef(x: Word)
      requires CheckLong(x) ==> LongAsObject(x) in refcnt
      modifies this
      ensures CheckShort(x) ==> refcnt == old(refcnt)
      ensures CheckLong(x) ==>
                refcnt == old(refcnt)[LongAsObject(x) := old(refcnt)[LongAsObject(x)] - 1]
    {
      if CheckLong(x) {
        DecRef(LongAsObject(x));
      }
    }

    /** `CPyTagged_XDECREF`: as DECREF, but a long integer over a null pointer is left alone. */
    method TaggedXDecRef(x: Word)
      requires CheckLong(x) && LongAsObject(x) != 0 ==> LongAsObject(x) in refcnt
      modifies this
      ensures CheckShort(x) || LongAsObject(x) == 0 ==> refcnt == old(refcnt)
      ensures CheckLong(x) && LongAsObject(x) != 0 ==>
                refcnt == old(refcnt)[LongAsObject(x) := old(refcnt)[LongAsObject(x)] - 1]
    {
      if CheckLong(x) {
        var obj := LongAsObject(x);
        if obj != 0 {
          DecRef(obj);
        }
      }
    }

    /**
     * `CPyTagged_FromObject`: `value` is the integer held by the object at
     * `obj`. A value that fits is returned short and no reference is taken; one
     * that does not is returned long, and the tagged integer takes a new
     * reference to the object.
     */
    method FromObject(obj: Word, value: int) returns (t: Word)
      requires obj % 2 == 0 && obj in refcnt
      modifies this
      ensures CheckShort(t) <==> InTaggedRange(value)
      ensures CheckShort(t) ==> Value(t) == value && refcnt == old(refcnt)
      ensures CheckLong(t) ==>
                LongAsObject(t) == obj && refcnt == old(refcnt)[obj := old(refcnt)[obj] + 1]
    {
      if !InTaggedRange(value) {
        IncRef(obj);
        t := Tag(obj);
        TagRoundTrip(obj);
      } else {
        t := ToWord(value * 2);
        ShortRoundTrip(value);
      }
    }

    /**
     * `CPyTagged_StealFromObject`: the caller's reference passes to the result.
     * A long result keeps it; a short result no longer needs the object and
     * drops it.
     */
    method StealFromObject(obj: Word, value: int) returns (t: Word)
      requires obj % 2 == 0 && obj in refcnt
      modifies this
      ensures CheckShort(t) <==> InTaggedRange(value)
      ensures CheckShort(t) ==> Value(t) == value && refcnt == old(refcnt)[obj := old(refcnt)[obj] - 1]
      ensures CheckLong(t) ==> LongAsObject(t) == obj && refcnt == old(refcnt)
    {
      if !InTaggedRange(value) {
        t := Tag(obj);
        TagRoundTrip(obj);
      } else {
        DecRef(obj);
        t := ToWord(value * 2);
        ShortRoundTrip(value);
      }
    }

    /** `CPyTagged_BorrowFromObject`: the result borrows the caller's reference. */
    method BorrowFromObject(obj: Word, value: int) returns (t: Word)
      requires obj % 2 == 0 && obj in refcnt
      modifies this
      ensures CheckShort(t) <==> InTaggedRange(value)
      ensures CheckShort(t) ==> Value(t) == value
      ensures CheckLong(t) ==> LongAsObject(t) == obj
      ensures refcnt == old(refcnt)
    {
      if !InTaggedRange(value) {
        t := Tag(obj);
        TagRoundTrip(obj);
      } else {
        t := ToWord(value * 2);
        ShortRoundTrip(value);
      }
    }
  }

  // ---------------------------------------------------------------------------
  // Trait vtables

  /**
   * A vtable slot. The trait section sits before the vtable proper in groups
   * of three: a trait type, the class's sub-vtable for that trait, and the
   * table of attribute offsets for it.
   */
  datatype VItem = TypeRef(id: nat) | SubVtable(vt: nat) | OffsetTable(offsets: seq<nat>) | Method(m: nat)

  /** The slot `3 * k` entries before the start of the vtable proper, `vtable[-3k]`. */
  function TraitIndex(base: int, k: nat): int {
    base - 3 * k
  }

  /** Some group of the trait section names `traitId`. */
  ghost predicate HasTrait(items: seq<VItem>, base: int, traitId: nat) {
    exists k: nat :: 1 <= k && 0 <= TraitIndex(base, k) < |items| && items[TraitIndex(base, k)] == TypeRef(traitId)
  }

  /** The first stride `k >= from`, scanning backwards, whose group names `traitId`. */
  function TraitStrideFrom(items: seq<VItem>, base: int, traitId: nat, from: nat): (k: nat)
    requires 1 <= from && base <= |items|
    requires exists j: nat :: from <= j && 0 <= TraitIndex(base, j) && items[TraitIndex(base, j)] == TypeRef(traitId)
    ensures from <= k && 0 <= TraitIndex(base, k) && items[TraitIndex(base, k)] == TypeRef(traitId)
    ensures forall j: nat :: from <= j < k ==> items[TraitIndex(base, j)] != TypeRef(traitId)
    decreases TraitIndex(base, from)
  {
    if items[TraitIndex(base, from)] == TypeRef(traitId) then from
    else TraitStrideFrom(items, base, traitId, from + 1)
  }

  /** The index of the group the vtable search stops at. */
  function TraitSlot(items: seq<VItem>, base: int, traitId: nat): (i: int)
    requires base <= |items| && HasTrait(items, base, traitId)
    ensures 0 <= i <= base - 3 && items[i] == TypeRef(traitId)
  {
    TraitIndex(base, TraitStrideFrom(items, base, traitId, 1))
  }

  /**
   * `CPy_FindTraitVtable`: scan `vtable[-3]`, `vtable[-6]`, ... for `traitId`
   * and return the sub-vtable next to the first match. `base` is the position
   * of the vtable proper in `vtable`. There is no bounds check: the trait must
   * be present.
   */
  method FindTraitVtable(traitId: nat, vtable: array<VItem>, base: int) returns (sub: VItem)
    requires base <= vtable.Length && HasTrait(vtable[..], base, traitId)
    ensures sub == vtable[TraitSlot(vtable[..], base, traitId) + 1]
  {
    var i := FindTraitGroup(traitId, vtable, base);
    sub := vtable[i + 1];
  }

  /**
   * `CPy_FindAttrOffset`: the same search, returning entry `index` of the
   * attribute-offset table next to the first match.
   */
  method FindAttrOffset(traitId: nat, vtable: array<VItem>, base: int, index: nat) returns (offset: nat)
    requires base <= vtable.Length && HasTrait(vtable[..], base, traitId)
    requires vtable[TraitSlot(vtable[..], base, traitId) + 2].OffsetTable?
    requires index < |vtable[TraitSlot(vtable[..], base, traitId) + 2].offsets|
    ensures offset == vtable[TraitSlot(vtable[..], base, traitId) + 2].offsets[index]
  {
    var i := FindTraitGroup(traitId, vtable, base);
    offset := vtable[i + 2].offsets[index];
  }

  /** The loop shared by both searches: `for (i = -3; ; i -= 3)` until `vtable[i] == traitId`. */
  method FindTraitGroup(traitId: nat, vtable: array<VItem>, base: int) returns (i: int)
    requires base <= vtable.Length && HasTrait(vtable[..], base, traitId)
    ensures i == TraitSlot(vtable[..], base, traitId)
  {
    ghost var target := TraitStrideFrom(vtable[..], base, traitId, 1);
    ghost var k: nat := 1;
    i := base - 3;
    while vtable[i] != TypeRef(traitId)
      invariant 1 <= k <= target && i == TraitIndex(base, k)
      decreases target - k
    {
      i := i - 3;
      k := k + 1;
    }
  }
}
