/**
 * The low-level IR builder of mypyc (mypyc/irbuild/ll_builder.py): a small
 * state machine over a list of basic blocks. Ops are appended only to the
 * current (last) block while it is unterminated, a block is activated only
 * once the previous one is terminated and is stamped with the handler on
 * top of the error-handler stack, and borrowed reads queue their owners on
 * a keep-alive list that is flushed into one op.
 *
 * On top of it sit the helpers that lay out code: the branch ladder that
 * dispatches on the alternatives of a union, the inlined floor division and
 * modulo of fixed-width integers, the loading of integer literals, and the
 * presence bitmaps passed to native calls.
 */
module LlBuilder {
  import opened Wrappers
  import opened Nodes
  import opened Ir
  import opened FuncIr
  import TaggedInt
  import Seqs

  // ---------------------------------------------------------------------------
  // The block list as a value

  /** The blocks with `op` appended to the last one: what `add` does. */
  function AppendOp(blocks: seq<Block>, op: Op): seq<Block>
    requires |blocks| > 0
  {
    var last := blocks[|blocks| - 1];
    blocks[..|blocks| - 1] + [last.(ops := last.ops + [op])]
  }

  /**
   * Appending an op to the current block appends it to the function's op
   * stream and touches nothing else: the earlier blocks, the block's identity
   * and handler stay, and the block ends up terminated exactly when the op is
   * a control op.
   */
  lemma AppendOpEffect(blocks: seq<Block>, op: Op)
    requires |blocks| > 0
    ensures AllOps(AppendOp(blocks, op)) == AllOps(blocks) + [op]
    ensures |AppendOp(blocks, op)| == |blocks|
    ensures AppendOp(blocks, op)[..|blocks| - 1] == blocks[..|blocks| - 1]
    ensures AppendOp(blocks, op)[|blocks| - 1].id == blocks[|blocks| - 1].id
    ensures AppendOp(blocks, op)[|blocks| - 1].errorHandler == blocks[|blocks| - 1].errorHandler
    ensures AppendOp(blocks, op)[|blocks| - 1].Terminated() <==> op.IsControl()
  {
    var r := AppendOp(blocks, op);
    assert r[..|r| - 1] == blocks[..|blocks| - 1];
    Seqs.InitLast(blocks);
    AllOpsSnoc(blocks[..|blocks| - 1], blocks[|blocks| - 1]);
    AllOpsSnoc(blocks[..|blocks| - 1], r[|r| - 1]);
  }

  lemma AllOpsSnoc(blocks: seq<Block>, b: Block)
    ensures AllOps(blocks + [b]) == AllOps(blocks) + b.ops
  {
    assert (blocks + [b])[..|blocks|] == blocks;
  }

  /** Every block except the current one is terminated. */
  ghost predicate WellFormed(blocks: seq<Block>) {
    forall i :: 0 <= i < |blocks| - 1 ==> blocks[i].Terminated()
  }

  /** Well-formedness looks only at the blocks before the current one. */
  lemma WellFormedPrefix(a: seq<Block>, b: seq<Block>)
    requires |a| == |b| > 0 && a[..|a| - 1] == b[..|b| - 1]
    requires WellFormed(a)
    ensures WellFormed(b)
  {
    forall i | 0 <= i < |b| - 1
      ensures b[i].Terminated()
    {
      assert b[i] == b[..|b| - 1][i] == a[..|a| - 1][i] == a[i];
    }
  }

  /** Activating a block after a terminated one keeps the blocks well formed. */
  lemma WellFormedActivate(blocks: seq<Block>, b: Block)
    requires WellFormed(blocks) && (|blocks| > 0 ==> blocks[|blocks| - 1].Terminated())
    ensures WellFormed(blocks + [b])
  {
  }

  /** Adding an op keeps the builder's blocks well formed. */
  lemma AppendOpWellFormed(blocks: seq<Block>, op: Op)
    requires |blocks| > 0 && WellFormed(blocks)
    ensures WellFormed(AppendOp(blocks, op))
  {
    AppendOpEffect(blocks, op);
    WellFormedPrefix(blocks, AppendOp(blocks, op));
  }

  /** The largest and smallest integer literals held as short tagged values. */
  const MAX_LITERAL_SHORT_INT: int := TaggedInt.TAGGED_MAX
  const MIN_LITERAL_SHORT_INT: int := -MAX_LITERAL_SHORT_INT - 1

  // ---------------------------------------------------------------------------
  // The builder

  /**
   * `LowLevelIRBuilder`. Python tells ops, registers and blocks apart by
   * object identity; here `nextId` hands out a fresh number for each.
   */
  class LowLevelIRBuilder {
    var blocks: seq<Block>
    /** The stack of except-handler entry blocks. */
    var errorHandlers: seq<Option<Label>>
    /** Values to keep alive while borrowed temporaries are live. */
    var keepAlives: seq<Value>
    var nextId: nat

    constructor ()
      ensures blocks == [] && errorHandlers == [None] && keepAlives == [] && nextId == 0
      ensures Valid()
    {
      blocks := [];
      errorHandlers := [None];
      keepAlives := [];
      nextId := 0;
    }

    ghost predicate Valid()
      reads this
    {
      WellFormed(blocks)
    }

    /** Ops may be added: there is a current block and it is not terminated. */
    predicate CanAdd()
      reads this
    {
      |blocks| > 0 && !blocks[|blocks| - 1].Terminated()
    }

    /** A fresh identity, for a new block (`BasicBlock()`) or register (`Register(...)`). */
    method Fresh() returns (n: nat)
      modifies this
      ensures n == old(nextId) && nextId == n + 1
      ensures blocks == old(blocks) && errorHandlers == old(errorHandlers) && keepAlives == old(keepAlives)
    {
      n := nextId;
      nextId := nextId + 1;
    }

    /** `add`: the current block must be unterminated; the op goes at its end. */
    method Add(kind: OpKind) returns (v: Value)
      requires Valid() && CanAdd()
      modifies this
      ensures blocks == AppendOp(old(blocks), Op(old(nextId), kind)) && |blocks| == |old(blocks)|
      ensures AllOps(blocks) == AllOps(old(blocks)) + [Op(old(nextId), kind)]
      ensures v == OpResult(old(nextId)) && nextId == old(nextId) + 1
      ensures errorHandlers == old(errorHandlers) && keepAlives == old(keepAlives)
      ensures Valid()
      ensures CanAdd() <==> !Op(old(nextId), kind).IsControl()
    {
      var op := Op(nextId, kind);
      AppendOpEffect(blocks, op);
      AppendOpWellFormed(blocks, op);
      blocks := AppendOp(blocks, op);
      v := OpResult(nextId);
      nextId := nextId + 1;
    }

    /** `goto`: a jump is added only when the current block is not yet terminated. */
    method Goto(target: Label)
      requires Valid() && |blocks| > 0
      modifies this
      ensures old(CanAdd()) ==> blocks == AppendOp(old(blocks), Op(old(nextId), OpKind.Goto(target)))
                                && AllOps(blocks) == AllOps(old(blocks)) + [Op(old(nextId), OpKind.Goto(target))]
                                && nextId == old(nextId) + 1
      ensures !old(CanAdd()) ==> blocks == old(blocks) && nextId == old(nextId)
      ensures errorHandlers == old(errorHandlers) && keepAlives == old(keepAlives)
      ensures Valid() && |blocks| == |old(blocks)| && !CanAdd()
    {
      if !blocks[|blocks| - 1].Terminated() {
        var _ := Add(OpKind.Goto(target));
      }
    }

    /**
     * `activate_block`: the previous block, if any, must be terminated; the
     * new block gets the handler on top of the stack and becomes current.
     */
    method ActivateBlock(b: Label)
      requires Valid() && !CanAdd()
      requires |errorHandlers| > 0
      modifies this
      ensures errorHandlers == old(errorHandlers) && keepAlives == old(keepAlives) && nextId == old(nextId)
      ensures blocks == old(blocks) + [Block(b, [], errorHandlers[|errorHandlers| - 1])]
      ensures AllOps(blocks) == AllOps(old(blocks))
      ensures Valid() && CanAdd()
    {
      AllOpsSnoc(blocks, Block(b, [], errorHandlers[|errorHandlers| - 1]));
      WellFormedActivate(blocks, Block(b, [], errorHandlers[|errorHandlers| - 1]));
      blocks := blocks + [Block(b, [], errorHandlers[|errorHandlers| - 1])];
    }

    /** `goto_and_activate`. */
    method GotoAndActivate(b: Label)
      requires Valid() && |blocks| > 0 && |errorHandlers| > 0
      modifies this
      ensures old(CanAdd()) ==> AllOps(blocks) == AllOps(old(blocks)) + [Op(old(nextId), OpKind.Goto(b))]
      ensures !old(CanAdd()) ==> AllOps(blocks) == AllOps(old(blocks))
      ensures errorHandlers == old(errorHandlers) && keepAlives == old(keepAlives)
      ensures |blocks| == |old(blocks)| + 1
      ensures blocks[|blocks| - 1] == Block(b, [], errorHandlers[|errorHandlers| - 1])
      ensures Valid() && CanAdd()
    {
      Goto(b);
      ActivateBlock(b);
    }

    /** `keep_alive`. */
    method KeepAlive(values: seq<Value>, steal: bool)
      requires Valid() && CanAdd()
      modifies this
      ensures blocks == AppendOp(old(blocks), Op(old(nextId), OpKind.KeepAlive(values, steal)))
      ensures nextId == old(nextId) + 1
      ensures errorHandlers == old(errorHandlers) && keepAlives == old(keepAlives)
      ensures Valid() && CanAdd()
    {
      var _ := Add(OpKind.KeepAlive(values, steal));
    }

    method PushErrorHandler(handler: Option<Label>)
      modifies this
      ensures errorHandlers == old(errorHandlers) + [handler]
      ensures blocks == old(blocks) && keepAlives == old(keepAlives) && nextId == old(nextId)
    {
      errorHandlers := errorHandlers + [handler];
    }

    /** `pop_error_handler`: popping an empty stack raises `IndexError`. */
    method PopErrorHandler() returns (handler: Option<Label>)
      requires |errorHandlers| > 0
      modifies this
      ensures old(errorHandlers) == errorHandlers + [handler]
      ensures blocks == old(blocks) && keepAlives == old(keepAlives) && nextId == old(nextId)
    {
      handler := errorHandlers[|errorHandlers| - 1];
      errorHandlers := errorHandlers[..|errorHandlers| - 1];
    }

    /**
     * `flush_keep_alives`: one `KeepAlive` holding a copy of the pending
     * values, then an empty list; nothing at all when the list is empty.
     */
    method FlushKeepAlives()
      requires Valid() && (|keepAlives| > 0 ==> CanAdd())
      modifies this
      ensures |old(keepAlives)| > 0 ==>
                blocks == AppendOp(old(blocks), Op(old(nextId), OpKind.KeepAlive(old(keepAlives), false)))
                && nextId == old(nextId) + 1
      ensures |old(keepAlives)| == 0 ==> blocks == old(blocks) && nextId == old(nextId)
      ensures keepAlives == [] && errorHandlers == old(errorHandlers) && Valid()
    {
      if |keepAlives| > 0 {
        var _ := Add(OpKind.KeepAlive(keepAlives, false));
        keepAlives := [];
      }
    }

    /**
     * `unbox_or_cast`: an `Unbox` for unboxed targets; otherwise a `Cast`,
     * which when borrowing first queues the source to be kept alive.
     */
    method UnboxOrCast(src: Value, targetType: RType, canBorrow: bool) returns (v: Value)
      requires Valid() && CanAdd()
      modifies this
      ensures targetType.Unboxed() ==>
                blocks == AppendOp(old(blocks), Op(old(nextId), Unbox(src, targetType)))
                && keepAlives == old(keepAlives)
      ensures !targetType.Unboxed() ==>
                blocks == AppendOp(old(blocks), Op(old(nextId), Cast(src, targetType, canBorrow)))
                && keepAlives == old(keepAlives) + (if canBorrow then [src] else [])
      ensures v == OpResult(old(nextId)) && nextId == old(nextId) + 1
      ensures errorHandlers == old(errorHandlers) && Valid() && CanAdd()
    {
      if targetType.Unboxed() {
        v := Add(Unbox(src, targetType));
      } else {
        if canBorrow {
          keepAlives := keepAlives + [src];
        }
        v := Add(Cast(src, targetType, canBorrow));
      }
    }

    /**
     * `get_attr`: a native attribute read for an extension class that has
     * the attribute, queuing the object when the read is really borrowed; a
     * dispatch over the alternatives for a union; the generic lookup otherwise.
     */
    method GetAttr(obj: Value, objType: RType, attr: string, resultType: RType, borrow: bool) returns (v: Value)
      requires Valid() && |errorHandlers| > 0
      requires if objType.RUnion? && objType.items == [] then !CanAdd()
               else CanAdd()
      modifies this
      ensures objType.RUnion? ==>
                v == Reg(old(nextId) + 1)
                && Marks(AllOps(blocks)) == Marks(AllOps(old(blocks))) + UnionMarks(objType.items, v, old(nextId))
      ensures !objType.RUnion? ==>
                blocks == AppendOp(old(blocks), Op(old(nextId), AttrOp(obj, objType, attr, borrow)))
                && v == OpResult(old(nextId)) && nextId == old(nextId) + 1
      ensures !objType.RUnion? ==>
                keepAlives == old(keepAlives) + (if IsBorrowedRead(objType, attr, borrow) then [obj] else [])
      ensures objType.RUnion? ==> keepAlives == old(keepAlives)
      ensures errorHandlers == old(errorHandlers) && Valid() && CanAdd()
    {
      if objType.RUnion? {
        v := DecomposeUnionHelper(obj, objType.items, resultType, ItemGetAttr(attr));
      } else {
        if IsBorrowedRead(objType, attr, borrow) {
          keepAlives := keepAlives + [obj];
        }
        v := Add(AttrOp(obj, objType, attr, borrow));
      }
    }

    /**
     * `decompose_union_helper`: for each native-class alternative in order,
     * an `isinstance` test and a branch to its own code, except that the last
     * alternative needs no test when nothing follows it; one generic branch
     * shared by all the other alternatives; every branch assigns the same
     * result register and jumps to one exit block, which becomes current.
     *
     * The source's loop tests an alternative exactly when more follow, so
     * here the tested alternatives are emitted first and the one untested
     * branch (the last native class, or the generic one) after them.
     */
    method DecomposeUnionHelper(obj: Value, items: seq<RType>, resultType: RType, process: ItemProcess)
      returns (result: Value)
      requires Valid() && |errorHandlers| > 0
      requires if items == [] then !CanAdd() else CanAdd()
      modifies this
      ensures errorHandlers == old(errorHandlers) && keepAlives == old(keepAlives)
      ensures result == Reg(old(nextId) + 1)
      ensures |blocks| == |old(blocks)| + 2 * NumTests(items) + 1
      ensures blocks[|blocks| - 1] == Block(old(nextId), [], errorHandlers[|errorHandlers| - 1])
      ensures Marks(AllOps(blocks)) == Marks(AllOps(old(blocks))) + UnionMarks(items, result, old(nextId))
      ensures Valid() && CanAdd()
    {
      var exit := Fresh();
      var r := Fresh();
      result := Reg(r);
      assert exit == old(nextId) && r == exit + 1;
      if items != [] {
        ghost var ops0 := AllOps(blocks);
        ghost var added := EmitDispatch(obj, items, process, resultType, result, exit);
        MarksConcat(ops0, added);
      }
      ActivateBlock(exit);
    }

    /** The tested alternatives, then the one untested branch; the current block ends terminated. */
    method EmitDispatch(obj: Value, items: seq<RType>, process: ItemProcess, resultType: RType,
                        result: Value, exit: Label) returns (ghost added: seq<Op>)
      requires Valid() && CanAdd() && |errorHandlers| > 0 && items != []
      modifies this
      ensures AllOps(blocks) == AllOps(old(blocks)) + added
      ensures Marks(added) == UnionMarks(items, result, exit)
      ensures |blocks| == |old(blocks)| + 2 * NumTests(items) && !CanAdd()
      ensures errorHandlers == old(errorHandlers) && keepAlives == old(keepAlives) && nextId >= old(nextId)
      ensures Valid()
    {
      ghost var ops0 := AllOps(blocks);
      ghost var tested := EmitTestedAlternatives(obj, FastItems(items), NumTests(items), process, resultType, result, exit);
      ghost var code := EmitBranch(obj, LastBranchType(items), process, resultType, result, exit);
      Extend(ops0, tested, code);
      added := tested + code;
    }

    /** The first `count` native-class alternatives, each with its test; the last false block stays current. */
    method EmitTestedAlternatives(obj: Value, fast: seq<RType>, count: nat, process: ItemProcess, resultType: RType,
                                  result: Value, exit: Label) returns (ghost added: seq<Op>)
      requires Valid() && CanAdd() && |errorHandlers| > 0
      requires count <= |fast| && forall k :: 0 <= k < |fast| ==> fast[k].RInstance?
      modifies this
      ensures AllOps(blocks) == AllOps(old(blocks)) + added
      ensures Marks(added) == TestedMarks(fast, count, result, exit)
      ensures |blocks| == |old(blocks)| + 2 * count && nextId >= old(nextId)
      ensures errorHandlers == old(errorHandlers) && keepAlives == old(keepAlives)
      ensures Valid() && CanAdd()
    {
      ghost var ops0 := AllOps(blocks);
      added := [];
      var i := 0;
      while i < count
        invariant 0 <= i <= count && nextId >= old(nextId)
        invariant Valid() && CanAdd() && errorHandlers == old(errorHandlers) && keepAlives == old(keepAlives)
        invariant |blocks| == |old(blocks)| + 2 * i
        invariant AllOps(blocks) == ops0 + added
        invariant Marks(added) == TestedMarks(fast, i, result, exit)
      {
        ghost var step := EmitTestedAlternative(obj, fast[i], process, resultType, result, exit);
        Extend(ops0, added, step);
        added := added + step;
        i := i + 1;
      }
    }

    /** One alternative that more follow: its test, its code, and its false block made current. */
    method EmitTestedAlternative(obj: Value, item: RType, process: ItemProcess, resultType: RType,
                                 result: Value, exit: Label) returns (ghost added: seq<Op>)
      requires Valid() && CanAdd() && |errorHandlers| > 0 && item.RInstance?
      modifies this
      ensures AllOps(blocks) == AllOps(old(blocks)) + added
      ensures Marks(added) == [Tested(item.className), Assigns(result), JumpsTo(exit)]
      ensures |blocks| == |old(blocks)| + 2 && nextId > old(nextId)
      ensures errorHandlers == old(errorHandlers) && keepAlives == old(keepAlives)
      ensures Valid() && CanAdd()
    {
      ghost var ops0 := AllOps(blocks);
      var falseBlock, test := EmitTest(obj, item.className);
      ghost var code := EmitBranch(obj, item, process, resultType, result, exit);
      Extend(ops0, test, code);
      added := test + code;
      ActivateBlock(falseBlock);
    }

    /** The `isinstance` test of one alternative and the branch on it; the true block becomes current. */
    method EmitTest(obj: Value, className: string) returns (falseBlock: Label, ghost added: seq<Op>)
      requires Valid() && CanAdd() && |errorHandlers| > 0
      modifies this
      ensures AllOps(blocks) == AllOps(old(blocks)) + added && Marks(added) == [Tested(className)]
      ensures |blocks| == |old(blocks)| + 1 && nextId > old(nextId)
      ensures errorHandlers == old(errorHandlers) && keepAlives == old(keepAlives)
      ensures Valid() && CanAdd()
    {
      ghost var ops0, n := AllOps(blocks), nextId;
      var test := Add(IsInstance(obj, className));
      var trueBlock := Fresh();
      falseBlock := Fresh();
      var _ := Add(Branch(test, trueBlock, falseBlock));
      added := [Op(n, IsInstance(obj, className)), Op(n + 3, Branch(test, trueBlock, falseBlock))];
      assert AllOps(blocks) == ops0 + added;
      MarksPair(added[0], added[1]);
      ActivateBlock(trueBlock);
    }

    /**
     * The code of one alternative: coerce the object, process it, coerce the
     * outcome to the result type, assign it to the result register and jump
     * to the exit block.
     */
    method EmitBranch(obj: Value, itemType: RType, process: ItemProcess, resultType: RType, result: Value, exit: Label)
      returns (ghost added: seq<Op>)
      requires Valid() && CanAdd()
      modifies this
      ensures AllOps(blocks) == AllOps(old(blocks)) + added
      ensures Marks(added) == [Assigns(result), JumpsTo(exit)]
      ensures |blocks| == |old(blocks)| && !CanAdd() && nextId > old(nextId)
      ensures errorHandlers == old(errorHandlers) && keepAlives == old(keepAlives)
      ensures Valid()
    {
      ghost var ops0 := AllOps(blocks);
      var temp2, code := EmitItemCode(obj, itemType, process, resultType);
      ghost var ops1, n := AllOps(blocks), nextId;
      var _ := Add(Assign(result, temp2));
      // The block is unterminated here, so `goto` adds the jump unconditionally.
      var _ := Add(OpKind.Goto(exit));
      ghost var tail := [Op(n, Assign(result, temp2)), Op(n + 1, OpKind.Goto(exit))];
      assert AllOps(blocks) == ops1 + tail;
      added := code + tail;
      MarksConcat(code, tail);
      MarksPair(tail[0], tail[1]);
    }

    /** Coerce the object to the alternative's type, process it, and coerce the outcome to the result type. */
    method EmitItemCode(obj: Value, itemType: RType, process: ItemProcess, resultType: RType)
      returns (v: Value, ghost added: seq<Op>)
      requires Valid() && CanAdd()
      modifies this
      ensures AllOps(blocks) == AllOps(old(blocks)) + added && Marks(added) == []
      ensures |blocks| == |old(blocks)| && nextId > old(nextId)
      ensures errorHandlers == old(errorHandlers) && keepAlives == old(keepAlives)
      ensures Valid() && CanAdd()
    {
      ghost var ops0, n := AllOps(blocks), nextId;
      var coerced := Add(Coerce(obj, itemType));
      var temp := Add(ItemOp(process, coerced, itemType));
      v := Add(Coerce(temp, resultType));
      added := [Op(n, Coerce(obj, itemType)), Op(n + 1, ItemOp(process, coerced, itemType)), Op(n + 2, Coerce(temp, resultType))];
      assert AllOps(blocks) == ops0 + added;
      ItemOpKind(n + 1, process, coerced, itemType);
      MarksTriple(added[0], added[1], added[2]);
    }
    // -------------------------------------------------------------------------
    // Integer literals

    /**
     * `load_int`: a literal outside the short range is loaded by a
     * `LoadLiteral` op; one inside is an immediate `Integer` and adds no op.
     */
    method LoadInt(value: int) returns (v: Value)
      requires Valid() && (value > MAX_LITERAL_SHORT_INT || value < MIN_LITERAL_SHORT_INT ==> CanAdd())
      modifies this
      ensures errorHandlers == old(errorHandlers) && keepAlives == old(keepAlives) && Valid()
      ensures v.Int? <==> TaggedInt.InTaggedRange(value)
      ensures v.Int? ==> v.n == value && blocks == old(blocks) && nextId == old(nextId)
      ensures !v.Int? ==> v == OpResult(old(nextId)) && nextId == old(nextId) + 1
                          && blocks == AppendOp(old(blocks), Op(old(nextId), LoadLiteral(value))) && CanAdd()
    {
      if value > MAX_LITERAL_SHORT_INT || value < MIN_LITERAL_SHORT_INT {
        v := Add(LoadLiteral(value));
      } else {
        v := Int(value);
      }
    }

    // -------------------------------------------------------------------------
    // Fixed-width floor division and modulo

    /** `is_same_native_int_signs`: 1 when both operands are negative or neither is. */
    method IsSameNativeIntSigns(a: Value, b: Value) returns (v: Value)
      requires Valid() && CanAdd()
      modifies this
      ensures blocks == AppendOps(old(blocks), SameSignsOps(old(nextId), a, b))
      ensures v == OpResult(old(nextId) + 2) && nextId == old(nextId) + 3
      ensures errorHandlers == old(errorHandlers) && keepAlives == old(keepAlives)
      ensures Valid() && CanAdd()
    {
      ghost var b0, n := blocks, nextId;
      var neg1 := Add(ComparisonOp(Slt, a, Int(0)));
      var neg2 := Add(ComparisonOp(Slt, b, Int(0)));
      v := Add(ComparisonOp(Eq, neg1, neg2));
      AppendOps3(b0, Op(n, ComparisonOp(Slt, a, Int(0))), Op(n + 1, ComparisonOp(Slt, b, Int(0))),
                 Op(n + 2, ComparisonOp(Eq, OpResult(n), OpResult(n + 1))));
    }

    /** A native op whose value is assigned to `res`: the first two ops of the inline division and modulo. */
    method AssignIntOp(res: Value, k: IntOpKind, lhs: Value, rhs: Value)
      requires Valid() && CanAdd()
      modifies this
      ensures blocks == AppendOps(old(blocks), [Op(old(nextId), IntOp(k, lhs, rhs)), Op(old(nextId) + 1, Assign(res, OpResult(old(nextId))))])
      ensures nextId == old(nextId) + 2
      ensures errorHandlers == old(errorHandlers) && keepAlives == old(keepAlives)
      ensures Valid() && CanAdd()
    {
      ghost var b0, n := blocks, nextId;
      var q := Add(IntOp(k, lhs, rhs));
      var _ := Add(Assign(res, q));
      AppendOps2(b0, Op(n, IntOp(k, lhs, rhs)), Op(n + 1, Assign(res, OpResult(n))));
    }

    /**
     * The start shared by `inline_fixed_width_divide` and `_mod`: a fresh
     * result register gets the native op's value, the operands' signs are
     * compared, and control goes to `done` when they agree, to `tricky`
     * otherwise.
     */
    method FloorHead(k: IntOpKind, lhs: Value, rhs: Value) returns (res: Value, tricky: Label, adjust: Label, done: Label)
      requires Valid() && CanAdd()
      modifies this
      ensures blocks == AppendOps(old(blocks), FloorHeadOps(k, old(nextId), lhs, rhs))
      ensures res == Reg(old(nextId)) && tricky == old(nextId) + 6 && adjust == old(nextId) + 7 && done == old(nextId) + 8
      ensures nextId == old(nextId) + 10
      ensures errorHandlers == old(errorHandlers) && keepAlives == old(keepAlives)
      ensures Valid() && !CanAdd()
    {
      ghost var b0, n := blocks, nextId;
      var r := Fresh();
      res := Reg(r);
      AssignIntOp(res, k, lhs, rhs);
      ghost var first := [Op(n + 1, IntOp(k, lhs, rhs)), Op(n + 2, Assign(Reg(n), OpResult(n + 1)))];
      tricky, adjust, done := EmitSignBranch(lhs, rhs);
      AppendOpsThen(b0, first, SameSignsOps(n + 3, lhs, rhs) + [Op(n + 9, Branch(OpResult(n + 5), n + 8, n + 6))]);
    }

    /** Compares the operands' signs and branches on the outcome to two of three fresh blocks. */
    method EmitSignBranch(lhs: Value, rhs: Value) returns (tricky: Label, adjust: Label, done: Label)
      requires Valid() && CanAdd()
      modifies this
      ensures tricky == old(nextId) + 3 && adjust == old(nextId) + 4 && done == old(nextId) + 5
      ensures blocks == AppendOps(old(blocks), SameSignsOps(old(nextId), lhs, rhs)
                                               + [Op(old(nextId) + 6, Branch(OpResult(old(nextId) + 2), done, tricky))])
      ensures nextId == old(nextId) + 7
      ensures errorHandlers == old(errorHandlers) && keepAlives == old(keepAlives)
      ensures Valid() && !CanAdd()
    {
      ghost var b0, n := blocks, nextId;
      var same := IsSameNativeIntSigns(lhs, rhs);
      tricky := Fresh();
      adjust := Fresh();
      done := Fresh();
      var _ := Add(Branch(same, done, tricky));
      AppendOpsThenOp(b0, SameSignsOps(n, lhs, rhs), Op(n + 6, Branch(OpResult(n + 2), done, tricky)));
    }

    /** The block reached when the signs differ in a division: is the truncated quotient exact? */
    method DivideTricky(tricky: Label, res: Value, lhs: Value, rhs: Value, done: Label, adjust: Label)
      requires Valid() && !CanAdd() && |errorHandlers| > 0
      modifies this
      ensures errorHandlers == old(errorHandlers) && keepAlives == old(keepAlives)
      ensures blocks == old(blocks) + [Block(tricky, DivideTrickyOps(old(nextId), res, lhs, rhs, done, adjust),
                                             errorHandlers[|errorHandlers| - 1])]
      ensures nextId == old(nextId) + 3
      ensures Valid() && !CanAdd()
    {
      ghost var n, h := nextId, errorHandlers[|errorHandlers| - 1];
      ghost var b0 := blocks;
      ActivateBlock(tricky);
      EmitExactnessTest(res, lhs, rhs, done, adjust);
      AppendOpsToNew(b0, Block(tricky, [], h), DivideTrickyOps(n, res, lhs, rhs, done, adjust));
    }

    /** Multiplies back and branches to `done` when the product is the dividend, to `adjust` otherwise. */
    method EmitExactnessTest(res: Value, lhs: Value, rhs: Value, done: Label, adjust: Label)
      requires Valid() && CanAdd()
      modifies this
      ensures blocks == AppendOps(old(blocks), DivideTrickyOps(old(nextId), res, lhs, rhs, done, adjust))
      ensures nextId == old(nextId) + 3
      ensures errorHandlers == old(errorHandlers) && keepAlives == old(keepAlives)
      ensures Valid() && !CanAdd()
    {
      ghost var b0, n := blocks, nextId;
      var mul := Add(IntOp(IntOpKind.Mul, res, rhs));
      var mulEq := Add(ComparisonOp(Eq, mul, lhs));
      var _ := Add(Branch(mulEq, done, adjust));
      AppendOps3(b0, Op(n, IntOp(IntOpKind.Mul, res, rhs)), Op(n + 1, ComparisonOp(Eq, OpResult(n), lhs)),
                 Op(n + 2, Branch(OpResult(n + 1), done, adjust)));
    }

    /** The block reached when the signs differ in a modulo: is the truncated remainder zero? */
    method ModTricky(tricky: Label, res: Value, done: Label, adjust: Label)
      requires Valid() && !CanAdd() && |errorHandlers| > 0
      modifies this
      ensures errorHandlers == old(errorHandlers) && keepAlives == old(keepAlives)
      ensures blocks == old(blocks) + [Block(tricky, ModTrickyOps(old(nextId), res, done, adjust),
                                             errorHandlers[|errorHandlers| - 1])]
      ensures nextId == old(nextId) + 2
      ensures Valid() && !CanAdd()
    {
      ghost var n, h := nextId, errorHandlers[|errorHandlers| - 1];
      ghost var b0 := blocks;
      ActivateBlock(tricky);
      EmitZeroTest(res, done, adjust);
      AppendOpsToNew(b0, Block(tricky, [], h), ModTrickyOps(n, res, done, adjust));
    }

    /** Branches to `done` when the remainder is zero, to `adjust` otherwise. */
    method EmitZeroTest(res: Value, done: Label, adjust: Label)
      requires Valid() && CanAdd()
      modifies this
      ensures blocks == AppendOps(old(blocks), ModTrickyOps(old(nextId), res, done, adjust))
      ensures nextId == old(nextId) + 2
      ensures errorHandlers == old(errorHandlers) && keepAlives == old(keepAlives)
      ensures Valid() && !CanAdd()
    {
      ghost var b0, n := blocks, nextId;
      var isZero := Add(ComparisonOp(Eq, res, Int(0)));
      var _ := Add(Branch(isZero, done, adjust));
      AppendOps2(b0, Op(n, ComparisonOp(Eq, res, Int(0))), Op(n + 1, Branch(OpResult(n), done, adjust)));
    }

    /** The adjusting block: the result register is corrected by one native op, then control joins `done`. */
    method EmitAdjust(adjust: Label, k: IntOpKind, res: Value, operand: Value, done: Label)
      requires Valid() && !CanAdd() && |errorHandlers| > 0
      modifies this
      ensures errorHandlers == old(errorHandlers) && keepAlives == old(keepAlives)
      ensures blocks == old(blocks) + [Block(adjust, AdjustOps(k, old(nextId), res, operand, done),
                                             errorHandlers[|errorHandlers| - 1])]
      ensures nextId == old(nextId) + 3
      ensures Valid() && !CanAdd()
    {
      ghost var n, h := nextId, errorHandlers[|errorHandlers| - 1];
      ghost var b0 := blocks;
      ActivateBlock(adjust);
      EmitCorrection(k, res, operand, done);
      AppendOpsToNew(b0, Block(adjust, [], h), AdjustOps(k, n, res, operand, done));
    }

    /** Corrects the result register by one native op and jumps to `done`. */
    method EmitCorrection(k: IntOpKind, res: Value, operand: Value, done: Label)
      requires Valid() && CanAdd()
      modifies this
      ensures blocks == AppendOps(old(blocks), AdjustOps(k, old(nextId), res, operand, done))
      ensures nextId == old(nextId) + 3
      ensures errorHandlers == old(errorHandlers) && keepAlives == old(keepAlives)
      ensures Valid() && !CanAdd()
    {
      ghost var b0, n := blocks, nextId;
      var adj := Add(IntOp(k, res, operand));
      var _ := Add(Assign(res, adj));
      var _ := Add(OpKind.Goto(done));
      AppendOps3(b0, Op(n, IntOp(k, res, operand)), Op(n + 1, Assign(res, OpResult(n))), Op(n + 2, OpKind.Goto(done)));
    }

    /**
     * `inline_fixed_width_divide`: the code laid out by `DivideLayout`, whose
     * run leaves Python's floor quotient in the returned register
     * (`LlArith.DivideFloors`).
     */
    method InlineFixedWidthDivide(lhs: Value, rhs: Value) returns (res: Value)
      requires Valid() && CanAdd() && |errorHandlers| > 0
      modifies this
      ensures errorHandlers == old(errorHandlers) && keepAlives == old(keepAlives)
      ensures blocks == DivideLayout(old(blocks), old(nextId), lhs, rhs, errorHandlers[|errorHandlers| - 1])
      ensures res == Reg(old(nextId)) && nextId == old(nextId) + 16
      ensures Valid() && CanAdd()
    {
      var tricky, adjust, done;
      res, tricky, adjust, done := FloorHead(IntOpKind.Div, lhs, rhs);
      DivideTricky(tricky, res, lhs, rhs, done, adjust);
      EmitAdjust(adjust, IntOpKind.Sub, res, Int(1), done);
      ActivateBlock(done);
    }

    /**
     * `inline_fixed_width_mod`: the code laid out by `ModLayout`, whose run
     * leaves Python's floor remainder in the returned register
     * (`LlArith.ModFloors`).
     */
    method InlineFixedWidthMod(lhs: Value, rhs: Value) returns (res: Value)
      requires Valid() && CanAdd() && |errorHandlers| > 0
      modifies this
      ensures errorHandlers == old(errorHandlers) && keepAlives == old(keepAlives)
      ensures blocks == ModLayout(old(blocks), old(nextId), lhs, rhs, errorHandlers[|errorHandlers| - 1])
      ensures res == Reg(old(nextId)) && nextId == old(nextId) + 15
      ensures Valid() && CanAdd()
    {
      var tricky, adjust, done;
      res, tricky, adjust, done := FloorHead(IntOpKind.Mod, lhs, rhs);
      ModTricky(tricky, res, done, adjust);
      EmitAdjust(adjust, IntOpKind.Add, res, rhs, done);
      ActivateBlock(done);
    }
  }

  // ---------------------------------------------------------------------------
  // Appending several ops

  /** The blocks with `ops` appended to the last one. */
  function AppendOps(blocks: seq<Block>, ops: seq<Op>): seq<Block>
    requires |blocks| > 0
  {
    var last := blocks[|blocks| - 1];
    blocks[..|blocks| - 1] + [last.(ops := last.ops + ops)]
  }

  lemma AppendOps2(blocks: seq<Block>, o1: Op, o2: Op)
    requires |blocks| > 0
    ensures AppendOp(AppendOp(blocks, o1), o2) == AppendOps(blocks, [o1, o2])
  {
    var last := blocks[|blocks| - 1];
    assert last.ops + [o1] + [o2] == last.ops + [o1, o2];
  }

  lemma AppendOps3(blocks: seq<Block>, o1: Op, o2: Op, o3: Op)
    requires |blocks| > 0
    ensures AppendOp(AppendOp(AppendOp(blocks, o1), o2), o3) == AppendOps(blocks, [o1, o2, o3])
  {
    var last := blocks[|blocks| - 1];
    assert last.ops + [o1] + [o2] + [o3] == last.ops + [o1, o2, o3];
  }

  lemma AppendOpsThen(blocks: seq<Block>, xs: seq<Op>, ys: seq<Op>)
    requires |blocks| > 0
    ensures AppendOps(AppendOps(blocks, xs), ys) == AppendOps(blocks, xs + ys)
  {
    var last := blocks[|blocks| - 1];
    assert last.ops + xs + ys == last.ops + (xs + ys);
  }

  lemma AppendOpsThenOp(blocks: seq<Block>, xs: seq<Op>, op: Op)
    requires |blocks| > 0
    ensures AppendOp(AppendOps(blocks, xs), op) == AppendOps(blocks, xs + [op])
  {
    var last := blocks[|blocks| - 1];
    assert last.ops + xs + [op] == last.ops + (xs + [op]);
  }

  /** Ops appended right after a block is activated make up that block. */
  lemma AppendOpsToNew(blocks: seq<Block>, b: Block, ops: seq<Op>)
    requires b.ops == []
    ensures AppendOps(blocks + [b], ops) == blocks + [b.(ops := ops)]
  {
    assert (blocks + [b])[..|blocks|] == blocks;
    assert b.ops + ops == ops;
  }

  // ---------------------------------------------------------------------------
  // The layout of fixed-width floor division and modulo

  /** What `is_same_native_int_signs` adds, numbered from `n`; its value is `OpResult(n + 2)`. */
  function SameSignsOps(n: nat, a: Value, b: Value): seq<Op> {
    [Op(n, ComparisonOp(Slt, a, Int(0))), Op(n + 1, ComparisonOp(Slt, b, Int(0))),
     Op(n + 2, ComparisonOp(Eq, OpResult(n), OpResult(n + 1)))]
  }

  /**
   * The ops added to the current block, numbered from `n`: the result
   * register is `Reg(n)`, and the `tricky`, `adjust` and `done` blocks are
   * labelled `n + 6`, `n + 7` and `n + 8`.
   */
  function FloorHeadOps(k: IntOpKind, n: nat, lhs: Value, rhs: Value): seq<Op> {
    [Op(n + 1, IntOp(k, lhs, rhs)), Op(n + 2, Assign(Reg(n), OpResult(n + 1)))]
    + (SameSignsOps(n + 3, lhs, rhs) + [Op(n + 9, Branch(OpResult(n + 5), n + 8, n + 6))])
  }

  function DivideTrickyOps(id: nat, res: Value, lhs: Value, rhs: Value, done: Label, adjust: Label): seq<Op> {
    [Op(id, IntOp(IntOpKind.Mul, res, rhs)), Op(id + 1, ComparisonOp(Eq, OpResult(id), lhs)),
     Op(id + 2, Branch(OpResult(id + 1), done, adjust))]
  }

  function ModTrickyOps(id: nat, res: Value, done: Label, adjust: Label): seq<Op> {
    [Op(id, ComparisonOp(Eq, res, Int(0))), Op(id + 1, Branch(OpResult(id), done, adjust))]
  }

  function AdjustOps(k: IntOpKind, id: nat, res: Value, operand: Value, done: Label): seq<Op> {
    [Op(id, IntOp(k, res, operand)), Op(id + 1, Assign(res, OpResult(id))), Op(id + 2, OpKind.Goto(done))]
  }

  /** The blocks after `inline_fixed_width_divide`, started with `nextId == n` and handler `h` on top. */
  function DivideLayout(blocks: seq<Block>, n: nat, lhs: Value, rhs: Value, h: Option<Label>): seq<Block>
    requires |blocks| > 0
  {
    AppendOps(blocks, FloorHeadOps(IntOpKind.Div, n, lhs, rhs))
    + [Block(n + 6, DivideTrickyOps(n + 10, Reg(n), lhs, rhs, n + 8, n + 7), h),
       Block(n + 7, AdjustOps(IntOpKind.Sub, n + 13, Reg(n), Int(1), n + 8), h),
       Block(n + 8, [], h)]
  }

  /** The blocks after `inline_fixed_width_mod`, started with `nextId == n` and handler `h` on top. */
  function ModLayout(blocks: seq<Block>, n: nat, lhs: Value, rhs: Value, h: Option<Label>): seq<Block>
    requires |blocks| > 0
  {
    AppendOps(blocks, FloorHeadOps(IntOpKind.Mod, n, lhs, rhs))
    + [Block(n + 6, ModTrickyOps(n + 10, Reg(n), n + 8, n + 7), h),
       Block(n + 7, AdjustOps(IntOpKind.Add, n + 12, Reg(n), rhs, n + 8), h),
       Block(n + 8, [], h)]
  }

  // ---------------------------------------------------------------------------
  // Union dispatch

  /** What each alternative's branch does with the coerced object. */
  datatype ItemProcess =
      /** A callback whose code is kept abstract. */
    | Opaque
      /** The attribute read of `union_get_attr`, made without borrowing. */
    | ItemGetAttr(attr: string)

  /** The one op the callback adds for an alternative of type `itemType`. */
  function ItemOp(process: ItemProcess, src: Value, itemType: RType): OpKind {
    match process
    case Opaque => ProcessItem(src)
    case ItemGetAttr(attr) => AttrOp(src, itemType, attr, false)
  }

  /** The native-class alternatives, in declaration order (`fast_items`). */
  function FastItems(items: seq<RType>): (r: seq<RType>)
    ensures forall k :: 0 <= k < |r| ==> r[k].RInstance?
  {
    if items == [] then []
    else if items[0].RInstance? then [items[0]] + FastItems(items[1..])
    else FastItems(items[1..])
  }

  /** The other alternatives, in declaration order (`rest_items`). */
  function RestItems(items: seq<RType>): seq<RType> {
    if items == [] then []
    else if items[0].RInstance? then RestItems(items[1..])
    else [items[0]] + RestItems(items[1..])
  }

  /** The two lists split the alternatives between them. */
  lemma {:induction false} PartitionSizes(items: seq<RType>)
    ensures |FastItems(items)| + |RestItems(items)| == |items|
    decreases |items|
  {
    if items != [] {
      PartitionSizes(items[1..]);
    }
  }

  /** The rest are exactly the alternatives that are not native classes. */
  lemma {:induction false} PartitionItems(items: seq<RType>)
    ensures forall k :: 0 <= k < |RestItems(items)| ==> !RestItems(items)[k].RInstance?
    ensures RestItems(items) == [] <==> forall k :: 0 <= k < |items| ==> items[k].RInstance?
    decreases |items|
  {
    if items != [] {
      PartitionItems(items[1..]);
      assert forall k :: 0 < k < |items| ==> items[k] == items[1..][k - 1];
    }
  }

  /** Some alternative is not a native class. */
  predicate HasRest(items: seq<RType>) {
    RestItems(items) != []
  }

  /** The names of native-class alternatives. */
  function ClassNames(fast: seq<RType>): (r: seq<string>)
    requires forall k :: 0 <= k < |fast| ==> fast[k].RInstance?
    ensures |r| == |fast| && forall k :: 0 <= k < |fast| ==> r[k] == fast[k].className
  {
    seq(|fast|, k requires 0 <= k < |fast| => fast[k].className)
  }

  /** How many `isinstance` tests the dispatch emits. */
  function NumTests(items: seq<RType>): nat {
    var n := |FastItems(items)|;
    if HasRest(items) then n else if n > 0 then n - 1 else 0
  }

  /** The type the untested branch coerces to: the last native class when nothing else follows it. */
  function LastBranchType(items: seq<RType>): RType
    requires items != []
  {
    if HasRest(items) then ObjectType
    else UnionLayoutCounts(items); FastItems(items)[NumTests(items)]
  }

  /** How many branches assign the result: one per native class, one shared by the rest. */
  function NumBranches(items: seq<RType>): nat {
    |FastItems(items)| + (if HasRest(items) then 1 else 0)
  }

  /**
   * The layout's counts: a union of only native classes gets one branch per
   * alternative; any other union gets at most that many; and every nonempty
   * union is dispatched with one test fewer than it has branches, the last
   * branch being reached when every test failed.
   */
  lemma UnionLayoutCounts(items: seq<RType>)
    ensures NumBranches(items) <= |items|
    ensures (forall k :: 0 <= k < |items| ==> items[k].RInstance?) ==> NumBranches(items) == |items|
    ensures items != [] ==> NumTests(items) + 1 == NumBranches(items)
    ensures NumBranches(items) == 0 <==> items == []
  {
    PartitionSizes(items);
    PartitionItems(items);
  }

  lemma MarksPair(o1: Op, o2: Op)
    ensures Marks([o1, o2]) == MarkOf(o1) + MarkOf(o2)
  {
    assert [o1, o2][1..] == [o2];
    assert [o2][1..] == [];
    assert Marks([o2]) == MarkOf(o2) + [];
  }

  lemma MarksTriple(o1: Op, o2: Op, o3: Op)
    ensures Marks([o1, o2, o3]) == MarkOf(o1) + MarkOf(o2) + MarkOf(o3)
  {
    assert [o1, o2, o3][1..] == [o2, o3];
    MarksPair(o2, o3);
  }

  /** Bookkeeping for ops emitted in two stretches: where they land and what they mark. */
  lemma Extend(ops0: seq<Op>, a: seq<Op>, b: seq<Op>)
    ensures ops0 + a + b == ops0 + (a + b)
    ensures Marks(a + b) == Marks(a) + Marks(b)
  {
    AppendAssoc(ops0, a, b);
    MarksConcat(a, b);
  }

  lemma AppendAssoc(ops0: seq<Op>, a: seq<Op>, b: seq<Op>)
    ensures ops0 + a + b == ops0 + (a + b)
  {
  }

  /** The parts of emitted code the dispatch layout is judged by. */
  datatype Mark = Tested(cls: string) | Assigns(dest: Value) | JumpsTo(target: Label)

  function MarkOf(op: Op): seq<Mark> {
    if op.kind.IsInstance? then [Tested(op.kind.className)]
    else if op.kind.Assign? then [Assigns(op.kind.dest)]
    else if op.kind.Goto? then [JumpsTo(op.kind.target)]
    else []
  }

  /** The `isinstance` tests, assignments and jumps among `ops`, in order. */
  function Marks(ops: seq<Op>): seq<Mark>
    decreases |ops|
  {
    if ops == [] then [] else MarkOf(ops[0]) + Marks(ops[1..])
  }

  lemma {:induction false} MarksConcat(a: seq<Op>, b: seq<Op>)
    ensures Marks(a + b) == Marks(a) + Marks(b)
    decreases |a|
  {
    if a == [] {
      assert a + b == b;
    } else {
      assert (a + b)[1..] == a[1..] + b;
      MarksConcat(a[1..], b);
    }
  }

  lemma MarksSnoc(ops: seq<Op>, op: Op)
    ensures Marks(ops + [op]) == Marks(ops) + MarkOf(op)
  {
    MarksConcat(ops, [op]);
    assert [op][1..] == [];
  }

  /** The callback's op is never a test, an assignment or a jump. */
  lemma ItemOpKind(id: nat, process: ItemProcess, src: Value, itemType: RType)
    ensures MarkOf(Op(id, ItemOp(process, src, itemType))) == []
  {
  }

  /** The marks of the first `k` native alternatives, each tested and branching to its own code. */
  function TestedMarks(fast: seq<RType>, k: nat, result: Value, exit: Label): seq<Mark>
    requires k <= |fast| && forall j :: 0 <= j < |fast| ==> fast[j].RInstance?
  {
    if k == 0 then []
    else TestedMarks(fast, k - 1, result, exit) + [Tested(fast[k - 1].className), Assigns(result), JumpsTo(exit)]
  }

  /**
   * The marks of the whole dispatch over `items`, assigning `result` and
   * leaving through `exit`: the tested alternatives, then one untested branch.
   */
  function UnionMarks(items: seq<RType>, result: Value, exit: Label): seq<Mark> {
    if items == [] then []
    else TestedMarks(FastItems(items), NumTests(items), result, exit) + [Assigns(result), JumpsTo(exit)]
  }

  /** The class is a native extension class that declares the attribute. */
  predicate HasNativeAttr(objType: RType, attr: string) {
    objType.RInstance? && objType.isExtClass && attr in objType.attrs
  }

  /**
   * `GetAttr(...).is_borrowed`: a borrow that was asked for and that the
   * attribute's type allows, since non-refcounted values are never borrowed.
   */
  predicate IsBorrowedRead(objType: RType, attr: string, borrow: bool) {
    HasNativeAttr(objType, attr) && borrow && objType.attrs[attr]
  }

  /** The one op `get_attr` adds for a type that is not a union. */
  function AttrOp(obj: Value, objType: RType, attr: string, borrow: bool): OpKind {
    if HasNativeAttr(objType, attr) then GetAttr(obj, attr, IsBorrowedRead(objType, attr, borrow))
    else PyGetAttr(obj, attr)
  }

  /** A borrowed read happens only natively, and only when asked for. */
  lemma BorrowedReadsAreNative(obj: Value, objType: RType, attr: string, borrow: bool)
    ensures IsBorrowedRead(objType, attr, borrow) ==> AttrOp(obj, objType, attr, borrow) == GetAttr(obj, attr, true)
    ensures !borrow ==> !IsBorrowedRead(objType, attr, borrow)
    ensures AttrOp(obj, objType, attr, borrow).PyGetAttr? <==> !HasNativeAttr(objType, attr)
  {
  }
}
