/**
 * Function signatures and declarations in mypyc's IR (mypyc/ir/func_ir.py):
 * the synthetic bitmap arguments that mark which optional arguments were
 * passed, real and bound signatures, their serialized form, declaration
 * names, and the collection of the values a function body may initialize.
 */
module FuncIr {
  import opened Wrappers
  import opened Seqs
  import opened Strings
  import opened Nodes
  import opened Ir

  /** `BITMAP_BITS`: presence bits held by one bitmap argument. */
  const BITMAP_BITS: nat := 32

  // ---------------------------------------------------------------------------
  // Arguments

  /** An argument's name; the synthetic bitmap arguments are named by their index (`bitmap_name(i)`). */
  datatype ArgName = Given(name: string) | BitmapName(index: nat)

  /** `RuntimeArg`. */
  datatype RuntimeArg = RuntimeArg(name: ArgName, rtype: RType, kind: ArgKind, posOnly: bool)

  /** An optional argument whose type has no spare error value needs a presence bit. */
  predicate NeedsBit(a: RuntimeArg) {
    a.rtype.ErrorOverlap() && a.kind.IsOptional()
  }

  /** The number of arguments that need a presence bit. */
  function CountNeedsBit(args: seq<RuntimeArg>): (k: nat)
    ensures k <= |args|
  {
    if args == [] then 0
    else CountNeedsBit(args[..|args| - 1]) + (if NeedsBit(args[|args| - 1]) then 1 else 0)
  }

  lemma {:induction false} CountNeedsBitConcat(a: seq<RuntimeArg>, b: seq<RuntimeArg>)
    ensures CountNeedsBit(a + b) == CountNeedsBit(a) + CountNeedsBit(b)
    decreases |b|
  {
    if b == [] {
      assert a + b == a;
    } else {
      assert (a + b)[..|a + b| - 1] == a + b[..|b| - 1];
      CountNeedsBitConcat(a, b[..|b| - 1]);
    }
  }

  /** The number of bitmap arguments: enough 32-bit words for one bit per such argument. */
  function BitmapArgCount(args: seq<RuntimeArg>): (n: nat)
    ensures n * BITMAP_BITS >= CountNeedsBit(args)
    ensures n * BITMAP_BITS < CountNeedsBit(args) + BITMAP_BITS
    ensures n == 0 <==> CountNeedsBit(args) == 0
  {
    (CountNeedsBit(args) + (BITMAP_BITS - 1)) / BITMAP_BITS
  }

  /** `num_bitmap_args`: count the arguments that need a bit, then round up to whole words. */
  method NumBitmapArgs(args: seq<RuntimeArg>) returns (n: nat)
    ensures n == BitmapArgCount(args)
  {
    var count := 0;
    var i := 0;
    while i < |args|
      invariant 0 <= i <= |args|
      invariant count == CountNeedsBit(args[..i])
    {
      assert args[..i + 1][..i] == args[..i];
      if args[i].rtype.ErrorOverlap() && args[i].kind.IsOptional() {
        count := count + 1;
      }
      i := i + 1;
    }
    assert args[..i] == args;
    n := (count + (BITMAP_BITS - 1)) / BITMAP_BITS;
  }

  // ---------------------------------------------------------------------------
  // Signatures

  /** `RuntimeArg(bitmap_name(i), bitmap_rprimitive, pos_only=True)`. */
  function BitmapArg(i: nat): RuntimeArg {
    RuntimeArg(BitmapName(i), BitmapType, Pos, true)
  }

  /** The bitmap arguments for `n` words, highest index first (`reversed(extra)`). */
  function BitmapArgs(n: nat): (r: seq<RuntimeArg>)
    ensures |r| == n
    ensures forall j :: 0 <= j < n ==> r[j] == BitmapArg(n - 1 - j)
  {
    seq(n, j requires 0 <= j < n => BitmapArg(n - 1 - j))
  }

  /** `FuncSignature`: its arguments (bitmap arguments last), return type, and bitmap count. */
  datatype FuncSignature = FuncSignature(args: seq<RuntimeArg>, retType: RType, numBitmapArgs: nat)

  /**
   * The `FuncSignature` constructor: the given arguments, then one bitmap
   * argument per word, the highest index first.
   */
  function MakeSignature(args: seq<RuntimeArg>, retType: RType): (s: FuncSignature)
    ensures s.numBitmapArgs == BitmapArgCount(args) && s.retType == retType
    ensures s.args == args + BitmapArgs(s.numBitmapArgs)
  {
    var n := BitmapArgCount(args);
    FuncSignature(args + BitmapArgs(n), retType, n)
  }

  /** Bitmap arguments are required positionals, so they never need a bit themselves. */
  lemma BitmapArgsNeedNoBits(args: seq<RuntimeArg>, retType: RType)
    ensures CountNeedsBit(MakeSignature(args, retType).args) == CountNeedsBit(args)
    ensures BitmapArgCount(MakeSignature(args, retType).args) == BitmapArgCount(args)
  {
    var s := MakeSignature(args, retType);
    var extra := BitmapArgs(s.numBitmapArgs);
    NoBitsInBitmaps(extra);
    CountNeedsBitConcat(args, extra);
  }

  lemma {:induction false} NoBitsInBitmaps(extra: seq<RuntimeArg>)
    requires forall j :: 0 <= j < |extra| ==> extra[j].kind == Pos
    ensures CountNeedsBit(extra) == 0
    decreases |extra|
  {
    if extra != [] {
      NoBitsInBitmaps(extra[..|extra| - 1]);
    }
  }

  /** Python's `a[:-n]` for `n > 0`: everything but the last `n`, or nothing. */
  function DropLast<T>(a: seq<T>, n: nat): (r: seq<T>)
    ensures |r| == if n <= |a| then |a| - n else 0
  {
    if n <= |a| then a[..|a| - n] else []
  }

  /** Python's `a[1:]`. */
  function Tail<T>(a: seq<T>): (r: seq<T>)
    ensures |r| == if a == [] then 0 else |a| - 1
  {
    if a == [] then [] else a[1..]
  }

  /** `real_args`: the arguments without the synthetic bitmap arguments. */
  function RealArgs(s: FuncSignature): seq<RuntimeArg> {
    if s.numBitmapArgs > 0 then DropLast(s.args, s.numBitmapArgs) else s.args
  }

  /** A constructed signature's real arguments are exactly the ones it was given. */
  lemma RealArgsRoundTrip(args: seq<RuntimeArg>, retType: RType)
    ensures RealArgs(MakeSignature(args, retType)) == args
  {
    var s := MakeSignature(args, retType);
    assert s.args[..|args|] == args;
  }

  /** `bound_sig`: the signature without its first (self) argument. */
  function BoundSig(s: FuncSignature): FuncSignature {
    if s.numBitmapArgs > 0 then MakeSignature(Tail(DropLast(s.args, s.numBitmapArgs)), s.retType)
    else MakeSignature(Tail(s.args), s.retType)
  }

  /**
   * The bound signature of a constructed signature has the real arguments
   * minus the first one, the same return type, and its own bitmap arguments.
   */
  lemma BoundSigRealArgs(args: seq<RuntimeArg>, retType: RType)
    ensures var b := BoundSig(MakeSignature(args, retType));
            b == MakeSignature(Tail(args), retType)
            && RealArgs(b) == Tail(args) && b.retType == retType
  {
    RealArgsRoundTrip(args, retType);
  }

  /** A serialized argument: the kind is stored as its number. */
  datatype SerializedArg = SerializedArg(name: ArgName, rtype: RType, kind: nat, posOnly: bool)

  /** A serialized signature; bitmap arguments are not stored. */
  datatype SerializedSig = SerializedSig(args: seq<SerializedArg>, retType: RType)

  function SerializeArg(a: RuntimeArg): SerializedArg {
    SerializedArg(a.name, a.rtype, KindValue(a.kind), a.posOnly)
  }

  /** `RuntimeArg.deserialize`; a kind number out of range raises, shown as `None`. */
  function DeserializeArg(d: SerializedArg): (r: Option<RuntimeArg>)
    ensures r.Some? <==> d.kind < 6
  {
    match KindOfValue(d.kind)
    case Some(k) => Some(RuntimeArg(d.name, d.rtype, k, d.posOnly))
    case None => None
  }

  /** `FuncSignature.serialize`: the real arguments and the return type. */
  function Serialize(s: FuncSignature): SerializedSig {
    var realArgs := RealArgs(s);
    SerializedSig(seq(|realArgs|, i requires 0 <= i < |realArgs| => SerializeArg(realArgs[i])), s.retType)
  }

  /** `FuncSignature.deserialize`: rebuild through the constructor, which re-adds the bitmaps. */
  function Deserialize(d: SerializedSig): (r: Option<FuncSignature>)
    ensures r.Some? <==> forall i :: 0 <= i < |d.args| ==> d.args[i].kind < 6
  {
    var parsed := seq(|d.args|, i requires 0 <= i < |d.args| => DeserializeArg(d.args[i]));
    assert forall i :: 0 <= i < |parsed| ==> (parsed[i].Some? <==> d.args[i].kind < 6);
    if forall i :: 0 <= i < |parsed| ==> parsed[i].Some? then
      Some(MakeSignature(seq(|parsed|, i requires 0 <= i < |parsed| => parsed[i].value), d.retType))
    else None
  }

  /** Deserializing a serialized signature gives back the same signature, bitmaps included. */
  lemma SerializeRoundTrip(args: seq<RuntimeArg>, retType: RType)
    ensures Deserialize(Serialize(MakeSignature(args, retType))) == Some(MakeSignature(args, retType))
  {
    var s := MakeSignature(args, retType);
    RealArgsRoundTrip(args, retType);
    var d := Serialize(s);
    assert |d.args| == |args|;
    forall i | 0 <= i < |args| ensures DeserializeArg(d.args[i]) == Some(args[i]) {
      KindValueRoundTrip(args[i].kind);
    }
    var parsed := seq(|d.args|, i requires 0 <= i < |d.args| => DeserializeArg(d.args[i]));
    assert seq(|parsed|, i requires 0 <= i < |parsed| => parsed[i].value) == args;
  }

  // ---------------------------------------------------------------------------
  // Declarations

  const FUNC_NORMAL: int := 0
  const FUNC_STATICMETHOD: int := 1
  const FUNC_CLASSMETHOD: int := 2

  /** `FuncDecl`; `boundSig` is computed by the constructor. */
  datatype FuncDecl = FuncDecl(
    name: string, className: Option<string>, moduleName: string, sig: FuncSignature,
    kind: int, isPropSetter: bool, isPropGetter: bool, implicit: bool,
    boundSig: Option<FuncSignature>)

  /**
   * The `FuncDecl` constructor: a function outside a class has no bound
   * signature, a static method keeps its signature, and any other method
   * drops its first argument.
   */
  function MakeFuncDecl(name: string, className: Option<string>, moduleName: string, sig: FuncSignature,
                        kind: int, isPropSetter: bool, isPropGetter: bool, implicit: bool): (d: FuncDecl)
    ensures d.boundSig.None? <==> className.None?
    ensures className.Some? && kind == FUNC_STATICMETHOD ==> d.boundSig == Some(sig)
    ensures forall args: seq<RuntimeArg> :: className.Some? && kind != FUNC_STATICMETHOD && sig == MakeSignature(args, sig.retType) ==>
              d.boundSig == Some(MakeSignature(Tail(args), sig.retType)) && RealArgs(d.boundSig.value) == Tail(args)
  {
    var bound :=
      if className.None? then None
      else if kind == FUNC_STATICMETHOD then Some(sig)
      else Some(BoundSig(sig));
    forall args: seq<RuntimeArg> | sig == MakeSignature(args, sig.retType)
      ensures BoundSig(sig) == MakeSignature(Tail(args), sig.retType) && RealArgs(BoundSig(sig)) == Tail(args)
    {
      BoundSigRealArgs(args, sig.retType);
    }
    FuncDecl(name, className, moduleName, sig, kind, isPropSetter, isPropGetter, implicit, bound)
  }

  /** `compute_shortname`: `Class.name`, or `name` when there is no (or an empty) class name. */
  function ComputeShortname(className: Option<string>, name: string): string {
    if className.Some? && className.value != "" then className.value + "." + name else name
  }

  function Shortname(d: FuncDecl): string {
    ComputeShortname(d.className, d.name)
  }

  /** `fullname`: the module name, a dot, and the short name. */
  function Fullname(d: FuncDecl): string {
    d.moduleName + "." + Shortname(d)
  }

  /**
   * When none of the parts contains a dot, the full name splits back into the
   * module, the class (if any) and the function name.
   */
  lemma FullnameSplits(d: FuncDecl)
    requires '.' !in d.moduleName && '.' !in d.name
    requires d.className.Some? ==> '.' !in d.className.value
    ensures Split(Fullname(d), '.')
         == [d.moduleName] + (if d.className.Some? && d.className.value != "" then [d.className.value] else []) + [d.name]
  {
    var parts := [d.moduleName] + (if d.className.Some? && d.className.value != "" then [d.className.value] else []) + [d.name];
    if d.className.Some? && d.className.value != "" {
      JoinCons(".", d.className.value, [d.name]);
      JoinCons(".", d.moduleName, [d.className.value, d.name]);
      assert parts == [d.moduleName, d.className.value, d.name];
    } else {
      JoinCons(".", d.moduleName, [d.name]);
      assert parts == [d.moduleName, d.name];
    }
    assert Join(".", parts) == Fullname(d);
    SplitJoin(parts, '.');
  }

  // ---------------------------------------------------------------------------
  // all_values

  /** The list being built by `all_values`, and the registers already in it. */
  datatype Collected = Collected(values: seq<Value>, seen: set<Value>)

  /** What `all_values` does with one op. */
  function CollectOp(c: Collected, op: Op): Collected {
    if op.IsControl() then c
    else if op.kind.Assign? || op.kind.AssignMulti? then
      if op.kind.dest in c.seen then c else Collected(c.values + [op.kind.dest], c.seen + {op.kind.dest})
    else if op.IsVoid() then c
    else
      var c' :=
        if op.kind.LoadAddress? && op.kind.src.Reg? && op.kind.src !in c.seen
        then Collected(c.values + [op.kind.src], c.seen + {op.kind.src})
        else c;
      Collected(c'.values + [OpResult(op.id)], c'.seen)
  }

  function CollectOps(c: Collected, ops: seq<Op>): Collected
    decreases |ops|
  {
    if ops == [] then c else CollectOp(CollectOps(c, ops[..|ops| - 1]), ops[|ops| - 1])
  }

  /** The ops of all blocks, in order. */
  function AllOps(blocks: seq<Block>): seq<Op>
    decreases |blocks|
  {
    if blocks == [] then [] else AllOps(blocks[..|blocks| - 1]) + blocks[|blocks| - 1].ops
  }

  /** The value `all_values` returns. */
  function AllValuesOf(args: seq<Value>, blocks: seq<Block>): seq<Value> {
    CollectOps(Collected(args, Elems(args)), AllOps(blocks)).values
  }

  /**
   * `all_values`: the argument registers, then for each op in order the
   * register it assigns (the first time only), the register whose address it
   * takes (likewise), and the op itself when it produces a value.
   */
  method AllValues(args: seq<Value>, blocks: seq<Block>) returns (values: seq<Value>)
    ensures values == AllValuesOf(args, blocks)
  {
    values := args;
    var seen := Elems(args);
    var b := 0;
    while b < |blocks|
      invariant 0 <= b <= |blocks|
      invariant Collected(values, seen) == CollectOps(Collected(args, Elems(args)), AllOps(blocks[..b]))
    {
      var ops := blocks[b].ops;
      var i := 0;
      assert AllOps(blocks[..b]) + ops[..i] == AllOps(blocks[..b]);
      while i < |ops|
        invariant 0 <= i <= |ops|
        invariant Collected(values, seen) == CollectOps(Collected(args, Elems(args)), AllOps(blocks[..b]) + ops[..i])
      {
        var op := ops[i];
        assert (AllOps(blocks[..b]) + ops[..i + 1])[..|AllOps(blocks[..b]) + ops[..i]|] == AllOps(blocks[..b]) + ops[..i];
        if !op.IsControl() {
          if op.kind.Assign? || op.kind.AssignMulti? {
            if op.kind.dest !in seen {
              values := values + [op.kind.dest];
              seen := seen + {op.kind.dest};
            }
          } else if !op.IsVoid() {
            if op.kind.LoadAddress? && op.kind.src.Reg? && op.kind.src !in seen {
              values := values + [op.kind.src];
              seen := seen + {op.kind.src};
            }
            values := values + [OpResult(op.id)];
          }
        }
        i := i + 1;
      }
      assert blocks[..b + 1][..b] == blocks[..b];
      assert ops[..i] == ops;
      b := b + 1;
    }
    assert blocks[..b] == blocks;
  }

  /** Assignments and address-takings in mypyc's IR always name a register. */
  predicate RegisterTargets(op: Op) {
    ((op.kind.Assign? || op.kind.AssignMulti?) ==> op.kind.dest.Reg?)
  }

  /** The list starts with the arguments, and `seen` holds the arguments and the registers added. */
  ghost predicate Bookkept(args: seq<Value>, c: Collected) {
    |args| <= |c.values| && c.values[..|args|] == args && c.seen == Elems(args) + RegsAfter(|args|, c.values)
  }

  /** A register added after the arguments occurs nowhere before it. */
  ghost predicate FreshRegisters(args: seq<Value>, v: seq<Value>) {
    forall i, j :: 0 <= i < j < |v| && |args| <= j && v[j].Reg? ==> v[i] != v[j]
  }

  /** Everything added after the arguments is a register or the value of a value-producing op. */
  ghost predicate FromOps(args: seq<Value>, ops: seq<Op>, v: seq<Value>) {
    forall k :: |args| <= k < |v| ==>
      v[k].Reg? || (v[k].OpResult? && exists op :: op in ops && !op.IsVoid() && op.id == v[k].oid)
  }

  /** Every value-producing op, assigned register and address-taken register of `ops` is listed. */
  ghost predicate Covers(ops: seq<Op>, v: seq<Value>) {
    && (forall op :: op in ops && !op.IsVoid() ==> OpResult(op.id) in v)
    && (forall op :: op in ops && (op.kind.Assign? || op.kind.AssignMulti?) ==> op.kind.dest in v)
    && (forall op :: op in ops && op.kind.LoadAddress? && op.kind.src.Reg? ==> op.kind.src in v)
  }

  /** What holds of the list whatever op comes next. */
  ghost predicate Tracked(args: seq<Value>, ops: seq<Op>, c: Collected) {
    Bookkept(args, c) && FreshRegisters(args, c.values) && FromOps(args, ops, c.values)
  }

  /** The facts `all_values` maintains about the list it builds. */
  ghost predicate CollectedWell(args: seq<Value>, ops: seq<Op>, c: Collected) {
    Tracked(args, ops, c) && Covers(ops, c.values)
  }

  /** Listing more values keeps everything listed. */
  lemma CoversGrow(ops: seq<Op>, v: seq<Value>, w: seq<Value>)
    requires Covers(ops, v) && v <= w
    ensures Covers(ops, w)
  {
    forall x | x in v ensures x in w {
      var k :| 0 <= k < |v| && v[k] == x;
      assert w[k] == x;
    }
  }

  lemma {:induction false} CollectOpsWell(args: seq<Value>, ops: seq<Op>)
    requires forall a :: a in args ==> a.Reg?
    requires forall op :: op in ops ==> RegisterTargets(op)
    ensures CollectedWell(args, ops, CollectOps(Collected(args, Elems(args)), ops))
    decreases |ops|
  {
    if ops == [] {
      RegsAfterEmpty(args);
    } else {
      var init := ops[..|ops| - 1];
      var op := ops[|ops| - 1];
      InitLast(ops);
      CollectOpsWell(args, init);
      CollectStep(args, init, CollectOps(Collected(args, Elems(args)), init), op);
    }
  }

  /** Among registers, being seen and being listed are the same. */
  lemma SeenIsListed(args: seq<Value>, c: Collected, x: Value)
    requires forall a :: a in args ==> a.Reg?
    requires Bookkept(args, c) && x.Reg?
    ensures x in c.seen <==> x in c.values
  {
    if x in c.values {
      var k :| 0 <= k < |c.values| && c.values[k] == x;
      if k < |args| {
        assert args[k] == x;
      }
    }
    if x in Elems(args) {
      var k :| 0 <= k < |args| && args[k] == x;
      assert c.values[k] == x;
    }
  }

  /** Growing the op list keeps what was established about the earlier ops. */
  lemma MoreOps(args: seq<Value>, init: seq<Op>, op: Op, v: seq<Value>)
    requires FromOps(args, init, v)
    ensures FromOps(args, init + [op], v)
  {
    forall k | |args| <= k < |v| && v[k].OpResult?
      ensures exists o :: o in init + [op] && !o.IsVoid() && o.id == v[k].oid
    {
      var o :| o in init && !o.IsVoid() && o.id == v[k].oid;
      assert o in init + [op];
    }
  }

  /** Appending a register not yet listed, or the value of a listed op, keeps the facts. */
  lemma AppendValue(args: seq<Value>, ops: seq<Op>, c: Collected, x: Value)
    requires Tracked(args, ops, c)
    requires x.Reg? ==> x !in c.values
    requires x.OpResult? ==> exists op :: op in ops && !op.IsVoid() && op.id == x.oid
    requires !x.Int?
    ensures Tracked(args, ops, Collected(c.values + [x], c.seen + (if x.Reg? then {x} else {})))
  {
    var v := c.values + [x];
    RegsAfterSnoc(|args|, c.values, x);
    assert v[..|args|] == c.values[..|args|];
    forall i, j | 0 <= i < j < |v| && |args| <= j && v[j].Reg? ensures v[i] != v[j] {
      if j == |c.values| {
        assert v[i] == c.values[i];
      }
    }
    assert v[|c.values|] == x;
  }

  lemma CollectStep(args: seq<Value>, init: seq<Op>, c: Collected, op: Op)
    requires forall a :: a in args ==> a.Reg?
    requires RegisterTargets(op)
    requires CollectedWell(args, init, c)
    ensures CollectedWell(args, init + [op], CollectOp(c, op))
  {
    var ops := init + [op];
    var c' := CollectOp(c, op);
    MoreOps(args, init, op, c.values);
    assert c.values <= c'.values;
    CoversGrow(init, c.values, c'.values);
    if op.IsControl() || (op.IsVoid() && !(op.kind.Assign? || op.kind.AssignMulti?)) {
    } else if op.kind.Assign? || op.kind.AssignMulti? {
      SeenIsListed(args, c, op.kind.dest);
      if op.kind.dest !in c.seen {
        AppendValue(args, ops, c, op.kind.dest);
      }
    } else {
      var c1 :=
        if op.kind.LoadAddress? && op.kind.src.Reg? && op.kind.src !in c.seen
        then Collected(c.values + [op.kind.src], c.seen + {op.kind.src})
        else c;
      if op.kind.LoadAddress? && op.kind.src.Reg? {
        SeenIsListed(args, c, op.kind.src);
        if op.kind.src !in c.seen {
          AppendValue(args, ops, c, op.kind.src);
        }
      }
      assert op in ops;
      AppendValue(args, ops, c1, OpResult(op.id));
      assert c'.values == c1.values + [OpResult(op.id)];
    }
  }

  /** The registers in `v` from position `n` on. */
  ghost function RegsAfter(n: nat, v: seq<Value>): set<Value> {
    set k | n <= k < |v| && v[k].Reg? :: v[k]
  }

  lemma RegsAfterEmpty(v: seq<Value>)
    ensures RegsAfter(|v|, v) == {}
  {
  }

  lemma RegsAfterSnoc(n: nat, v: seq<Value>, x: Value)
    requires n <= |v|
    ensures RegsAfter(n, v + [x]) == RegsAfter(n, v) + (if x.Reg? then {x} else {})
  {
    var w := v + [x];
    forall y ensures y in RegsAfter(n, w) <==> y in RegsAfter(n, v) + (if x.Reg? then {x} else {}) {
      if y in RegsAfter(n, w) {
        var k :| n <= k < |w| && w[k].Reg? && w[k] == y;
        if k < |v| {
          assert v[k] == y;
        }
      }
      if y in RegsAfter(n, v) {
        var k :| n <= k < |v| && v[k].Reg? && v[k] == y;
        assert w[k] == y;
      }
      if x.Reg? && y == x {
        assert w[|v|] == x;
      }
    }
  }

  lemma AppendRegister(args: seq<Value>, c: Collected, r: Value)
    requires r.Reg? && r !in c.values && |args| <= |c.values| && c.values[..|args|] == args
    requires c.seen == Elems(args) + RegsAfter(|args|, c.values)
    ensures c.seen + {r} == Elems(args) + RegsAfter(|args|, c.values + [r])
  {
    RegsAfterSnoc(|args|, c.values, r);
  }

  /**
   * What `all_values` returns: the arguments first; each register it adds
   * occurs nowhere earlier; no void op appears; and every assigned register,
   * address-taken register and value-producing op is included.
   */
  lemma AllValuesProps(args: seq<Value>, blocks: seq<Block>)
    requires forall a :: a in args ==> a.Reg?
    requires forall op :: op in AllOps(blocks) ==> RegisterTargets(op)
    ensures var values := AllValuesOf(args, blocks);
            && |args| <= |values| && values[..|args|] == args
            && (forall i, j :: 0 <= i < j < |values| && |args| <= j && values[j].Reg? ==> values[i] != values[j])
            && (forall k :: |args| <= k < |values| && values[k].OpResult? ==>
                  exists op :: op in AllOps(blocks) && !op.IsVoid() && op.id == values[k].oid)
            && (forall op :: op in AllOps(blocks) && !op.IsVoid() ==> OpResult(op.id) in values)
            && (forall op :: op in AllOps(blocks) && (op.kind.Assign? || op.kind.AssignMulti?) ==> op.kind.dest in values)
  {
    CollectOpsWell(args, AllOps(blocks));
  }
}
