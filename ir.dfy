/**
 * The slice of mypyc's IR vocabulary that the modelled builder and function
 * helpers read: runtime types with the three attributes consulted
 * (`is_unboxed`, `error_overlap`, `is_refcounted`), values, ops and basic
 * blocks. The op classes and runtime types themselves live in
 * mypyc/ir/ops.py and mypyc/ir/rtypes.py, which are not part of this model;
 * ops that the modelled code only passes along are kept abstract.
 *
 * Python distinguishes ops, registers and blocks by object identity; here
 * each carries a number that the builder hands out fresh.
 */
module Ir {
  import opened Wrappers

  // ---------------------------------------------------------------------------
  // Runtime types

  datatype RType =
    | RPrimitive(name: string, isUnboxed: bool, errorOverlap: bool, isRefcounted: bool)
      /** A native class; `attrs` maps each attribute to whether its type is reference counted. */
    | RInstance(className: string, isExtClass: bool, attrs: map<string, bool>)
    | RUnion(items: seq<RType>)
  {
    predicate Unboxed() {
      RPrimitive? && isUnboxed
    }

    predicate ErrorOverlap() {
      RPrimitive? && errorOverlap
    }
  }

  /** `object_rprimitive`. */
  const ObjectType: RType := RPrimitive("builtins.object", false, false, true)

  /** `bitmap_rprimitive`: an unboxed 32-bit word. */
  const BitmapType: RType := RPrimitive("u32", true, true, false)

  // ---------------------------------------------------------------------------
  // Values and ops

  type Label = nat

  /** A register, the value an op produces, or an integer constant (`Integer`). */
  datatype Value = Reg(rid: nat) | OpResult(oid: nat) | Int(n: int)

  datatype IntOpKind = Add | Sub | Mul | Div | Mod
  datatype CmpKind = Eq | Slt

  datatype OpKind =
    | Goto(target: Label)
    | Branch(cond: Value, ifTrue: Label, ifFalse: Label)
    | Return(v: Value)
    | Unreachable
    | Assign(dest: Value, src: Value)
    | AssignMulti(dest: Value, srcs: seq<Value>)
    | LoadAddress(src: Value)
    | KeepAlive(values: seq<Value>, steal: bool)
    | Unbox(src: Value, rtype: RType)
    | Cast(src: Value, rtype: RType, borrow: bool)
      /** `borrow` here is the op's `is_borrowed`. */
    | GetAttr(obj: Value, attr: string, borrow: bool)
      /** The generic `getattr` call of `py_get_attr`. */
    | PyGetAttr(obj: Value, attr: string)
    | LoadLiteral(literal: int)
    | IsInstance(obj: Value, className: string)
      /** What `coerce` emits, kept abstract. */
    | Coerce(src: Value, rtype: RType)
      /** What a union-dispatch callback emits for one alternative, kept abstract. */
    | ProcessItem(src: Value)
    | IntOp(intOp: IntOpKind, lhs: Value, rhs: Value)
    | ComparisonOp(cmp: CmpKind, lhs: Value, rhs: Value)
      /** Any other op, with whether it produces no value. */
    | Other(void: bool)

  /** An op and its identity; when it produces a value, that value is `OpResult(id)`. */
  datatype Op = Op(id: nat, kind: OpKind)
  {
    /** `isinstance(op, ControlOp)`. */
    predicate IsControl() {
      kind.Goto? || kind.Branch? || kind.Return? || kind.Unreachable?
    }

    /** `op.is_void`: control ops, assignments and keep-alives produce nothing. */
    predicate IsVoid() {
      IsControl() || kind.Assign? || kind.AssignMulti? || kind.KeepAlive? || (kind.Other? && kind.void)
    }
  }

  /** A basic block: its identity, its ops, and the error handler it was stamped with. */
  datatype Block = Block(id: Label, ops: seq<Op>, errorHandler: Option<Label>)
  {
    /** `BasicBlock.terminated`: the block ends with a control op. */
    predicate Terminated() {
      |ops| > 0 && ops[|ops| - 1].IsControl()
    }
  }
}
