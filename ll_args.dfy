/**
 * The argument helpers of the low-level IR builder
 * (mypyc/irbuild/ll_builder.py): counting positional arguments, and the
 * presence bitmaps `native_args_to_positional` appends to a native call,
 * one bit for each optional argument whose type has no spare error value.
 */
module LlArgs {
  import opened Wrappers
  import opened Nodes
  import opened Ir
  import opened FuncIr

  // ---------------------------------------------------------------------------
  // num_positional_args

  /** The number of `ARG_POS` kinds. */
  function CountPos(kinds: seq<ArgKind>): nat {
    if kinds == [] then 0
    else CountPos(kinds[..|kinds| - 1]) + (if kinds[|kinds| - 1] == Pos then 1 else 0)
  }

  /** At most every kind is positional, and all of them exactly when each one is `ARG_POS`. */
  lemma {:induction false} CountPosBounds(kinds: seq<ArgKind>)
    ensures CountPos(kinds) <= |kinds|
    ensures CountPos(kinds) == |kinds| <==> forall i :: 0 <= i < |kinds| ==> kinds[i] == Pos
    ensures CountPos(kinds) == 0 <==> forall i :: 0 <= i < |kinds| ==> kinds[i] != Pos
  {
    if kinds != [] {
      var p := kinds[..|kinds| - 1];
      CountPosBounds(p);
      assert forall i :: 0 <= i < |p| ==> p[i] == kinds[i];
    }
  }

  /** Counting positional kinds is additive over concatenation. */
  lemma {:induction false} CountPosConcat(a: seq<ArgKind>, b: seq<ArgKind>)
    ensures CountPos(a + b) == CountPos(a) + CountPos(b)
    decreases |b|
  {
    if b == [] {
      assert a + b == a;
    } else {
      assert (a + b)[..|a + b| - 1] == a + b[..|b| - 1];
      CountPosConcat(a, b[..|b| - 1]);
    }
  }

  /** `num_positional_args`: without kinds every value is positional. */
  method NumPositionalArgs(values: seq<Value>, kinds: Option<seq<ArgKind>>) returns (n: nat)
    ensures kinds.None? ==> n == |values|
    ensures kinds.Some? ==> n == CountPos(kinds.value)
  {
    if kinds.None? {
      return |values|;
    }
    var ks := kinds.value;
    n := 0;
    var i := 0;
    while i < |ks|
      invariant 0 <= i <= |ks|
      invariant n == CountPos(ks[..i])
    {
      assert ks[..i + 1][..i] == ks[..i];
      if ks[i] == Pos {
        n := n + 1;
      }
      i := i + 1;
    }
    assert ks[..i] == ks;
  }

  // ---------------------------------------------------------------------------
  // Presence bitmaps

  /** A 32-bit bitmap word, as its bits (bit `k` is `1 << k`). */
  type Bits = seq<bool>

  /** The word `0`. */
  function NoBits(): (r: Bits)
    ensures |r| == BITMAP_BITS && forall b :: 0 <= b < |r| ==> !r[b]
  {
    seq(BITMAP_BITS, _ => false)
  }

  /**
   * Formal `j` sets bit `b` of word `i`: it needs a presence bit, its
   * running index among such formals is `i * BITMAP_BITS + b`, and some
   * actual was mapped to it.
   */
  predicate SetsBit(actuals: seq<seq<nat>>, args: seq<RuntimeArg>, j: nat, i: nat, b: nat)
    requires |actuals| == |args| && j < |args|
  {
    NeedsBit(args[j]) && CountNeedsBit(args[..j]) == i * BITMAP_BITS + b && actuals[j] != []
  }

  /**
   * Word `i` of the bitmap after the loop over the first formals: each one
   * that needs a bit and whose running index falls in the word sets bit
   * `index & (BITMAP_BITS - 1)`, which is the index modulo the word size,
   * when it received an actual.
   */
  function Bitmap(actuals: seq<seq<nat>>, args: seq<RuntimeArg>, i: nat): (r: Bits)
    requires |actuals| == |args|
    ensures |r| == BITMAP_BITS
  {
    if args == [] then NoBits()
    else
      var k := |args| - 1;
      var pre := Bitmap(actuals[..k], args[..k], i);
      var c := CountNeedsBit(args[..k]);
      if NeedsBit(args[k]) && i * BITMAP_BITS <= c < (i + 1) * BITMAP_BITS && actuals[k] != []
      then pre[c % BITMAP_BITS := true] else pre
  }

  /** Bit `b` of word `i` is set exactly when some formal sets it. */
  lemma {:induction false} BitmapBit(actuals: seq<seq<nat>>, args: seq<RuntimeArg>, i: nat, b: nat)
    requires |actuals| == |args| && b < BITMAP_BITS
    ensures Bitmap(actuals, args, i)[b] <==> exists j :: 0 <= j < |args| && SetsBit(actuals, args, j, i, b)
  {
    if args != [] {
      var k := |args| - 1;
      var a', g' := actuals[..k], args[..k];
      BitmapBit(a', g', i, b);
      forall j | 0 <= j < k
        ensures SetsBit(a', g', j, i, b) <==> SetsBit(actuals, args, j, i, b)
      {
        assert g'[..j] == args[..j];
      }
      BitmapSnoc(actuals, args, i, b);
    }
  }

  /** The last formal sets bit `b` or leaves it as the earlier formals had it. */
  lemma BitmapSnoc(actuals: seq<seq<nat>>, args: seq<RuntimeArg>, i: nat, b: nat)
    requires |actuals| == |args| > 0 && b < BITMAP_BITS
    ensures var k := |args| - 1;
            Bitmap(actuals, args, i)[b] <==> Bitmap(actuals[..k], args[..k], i)[b] || SetsBit(actuals, args, k, i, b)
  {
    var k := |args| - 1;
    var c := CountNeedsBit(args[..k]);
    if NeedsBit(args[k]) && i * BITMAP_BITS <= c < (i + 1) * BITMAP_BITS && actuals[k] != [] {
      WordBit(c, i, b);
    } else if SetsBit(actuals, args, k, i, b) {
      assert false;
    }
  }

  /** Within word `i`, the running index `c` lands on bit `b` exactly when it is `i * BITMAP_BITS + b`. */
  lemma WordBit(c: nat, i: nat, b: nat)
    requires i * BITMAP_BITS <= c < (i + 1) * BITMAP_BITS && b < BITMAP_BITS
    ensures c % BITMAP_BITS == b <==> c == i * BITMAP_BITS + b
  {
    var w := i * BITMAP_BITS;
    assert c == w + (c - w) && 0 <= c - w < BITMAP_BITS;
    assert c % BITMAP_BITS == c - w;
  }

  /** One bitmap argument: the caller's override, or a word computed from the actuals. */
  datatype BitmapArg = Override(v: Value) | Word(bits: Bits)

  /**
   * The tail of `native_args_to_positional`: the `n` bitmap arguments, word
   * `n - 1` first, each taken from `overrides` when the caller gave one.
   */
  method BitmapArgs(actuals: seq<seq<nat>>, args: seq<RuntimeArg>, n: nat, overrides: seq<Value>)
    returns (out: seq<BitmapArg>)
    requires |actuals| == |args|
    ensures |out| == n
    ensures forall k :: 0 <= k < n ==>
              out[k] == if n - 1 - k < |overrides| then Override(overrides[n - 1 - k])
                        else Word(Bitmap(actuals, args, n - 1 - k))
  {
    out := [];
    var i := n;
    while i > 0
      invariant 0 <= i <= n && |out| == n - i
      invariant forall k :: 0 <= k < n - i ==>
                  out[k] == if n - 1 - k < |overrides| then Override(overrides[n - 1 - k])
                            else Word(Bitmap(actuals, args, n - 1 - k))
    {
      i := i - 1;
      if i < |overrides| {
        out := out + [Override(overrides[i])];
      } else {
        var bits := BitmapWord(actuals, args, i);
        out := out + [Word(bits)];
      }
    }
  }

  /** The inner loop: one bitmap word, accumulated over the formals with the running index `c`. */
  method BitmapWord(actuals: seq<seq<nat>>, args: seq<RuntimeArg>, i: nat) returns (bitmap: Bits)
    requires |actuals| == |args|
    ensures bitmap == Bitmap(actuals, args, i)
  {
    bitmap := NoBits();
    var c := 0;
    var j := 0;
    while j < |args|
      invariant 0 <= j <= |args|
      invariant bitmap == Bitmap(actuals[..j], args[..j], i)
      invariant c == CountNeedsBit(args[..j])
    {
      assert args[..j + 1][..j] == args[..j] && actuals[..j + 1][..j] == actuals[..j];
      if args[j].kind.IsOptional() && args[j].rtype.ErrorOverlap() {
        if i * BITMAP_BITS <= c < (i + 1) * BITMAP_BITS {
          if actuals[j] != [] {
            bitmap := bitmap[c % BITMAP_BITS := true];
          }
        }
        c := c + 1;
      }
      j := j + 1;
    }
    assert args[..j] == args && actuals[..j] == actuals;
  }
}
