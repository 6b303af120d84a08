/**
 * A small-step reading of the IR ops the builder's arithmetic lowering
 * emits: native integer ops with C semantics (truncating division, a
 * remainder with the dividend's sign), comparisons producing 0 or 1,
 * register assignment, and the control ops that leave a block. Values are
 * mathematical integers; ops outside this set leave the environment alone.
 */
module IrExec {
  import opened Wrappers
  import opened Ir
  import TaggedInt

  /** What each register and op result holds. */
  type Env = map<Value, int>

  function Eval(env: Env, v: Value): int {
    if v.Int? then v.n else if v in env then env[v] else 0
  }

  /** `IntOp` with native semantics; C leaves division by zero undefined, read here as 0. */
  function Arith(k: IntOpKind, a: int, b: int): int {
    match k
    case Add => a + b
    case Sub => a - b
    case Mul => a * b
    case Div => if b == 0 then 0 else TaggedInt.CDiv(a, b)
    case Mod => if b == 0 then 0 else TaggedInt.CRem(a, b)
  }

  function Compare(c: CmpKind, a: int, b: int): bool {
    match c
    case Eq => a == b
    case Slt => a < b
  }

  /** The effect of one op that does not leave the block. */
  function Step(env: Env, op: Op): Env {
    match op.kind
    case IntOp(k, l, r) => env[OpResult(op.id) := Arith(k, Eval(env, l), Eval(env, r))]
    case ComparisonOp(c, l, r) => env[OpResult(op.id) := if Compare(c, Eval(env, l), Eval(env, r)) then 1 else 0]
    case Assign(dest, src) => env[dest := Eval(env, src)]
    case _ => env
  }

  /**
   * Runs ops up to the first control op: a `Goto` or `Branch` names the
   * next block, `Return` and `Unreachable` (and running off the end) name none.
   */
  function ExecBlock(env: Env, ops: seq<Op>): (Env, Option<Label>)
    decreases |ops|
  {
    if ops == [] then (env, None)
    else match ops[0].kind
      case Goto(t) => (env, Some(t))
      case Branch(c, t, f) => (env, Some(if Eval(env, c) != 0 then t else f))
      case Return(_) => (env, None)
      case Unreachable => (env, None)
      case _ => ExecBlock(Step(env, ops[0]), ops[1..])
  }

  /** An op that is not a control op runs, and the block goes on. */
  lemma ExecStep(env: Env, ops: seq<Op>)
    requires ops != [] && !ops[0].IsControl()
    ensures ExecBlock(env, ops) == ExecBlock(Step(env, ops[0]), ops[1..])
  {
  }

  /** A native op stores its result under the op's id, and the block goes on. */
  lemma ExecIntOp(env: Env, id: nat, k: IntOpKind, l: Value, r: Value, rest: seq<Op>)
    ensures ExecBlock(env, [Op(id, IntOp(k, l, r))] + rest)
            == ExecBlock(env[OpResult(id) := Arith(k, Eval(env, l), Eval(env, r))], rest)
  {
    assert ([Op(id, IntOp(k, l, r))] + rest)[1..] == rest;
  }

  /** A comparison stores 1 or 0 under the op's id, and the block goes on. */
  lemma ExecCompare(env: Env, id: nat, c: CmpKind, l: Value, r: Value, rest: seq<Op>)
    ensures ExecBlock(env, [Op(id, ComparisonOp(c, l, r))] + rest)
            == ExecBlock(env[OpResult(id) := if Compare(c, Eval(env, l), Eval(env, r)) then 1 else 0], rest)
  {
    assert ([Op(id, ComparisonOp(c, l, r))] + rest)[1..] == rest;
  }

  /** An assignment stores the source's value in the destination, and the block goes on. */
  lemma ExecAssign(env: Env, id: nat, dest: Value, src: Value, rest: seq<Op>)
    ensures ExecBlock(env, [Op(id, Assign(dest, src))] + rest) == ExecBlock(env[dest := Eval(env, src)], rest)
  {
    assert ([Op(id, Assign(dest, src))] + rest)[1..] == rest;
  }

  /** The first block of `code` with the label. */
  function Find(code: seq<Block>, target: Label): (r: Option<Block>)
    ensures r.Some? ==> r.value in code && r.value.id == target
  {
    if code == [] then None
    else if code[0].id == target then Some(code[0])
    else Find(code[1..], target)
  }

  /**
   * Runs `ops`, then the blocks of `code` they jump to, until control
   * reaches `exit`: the environment on arrival, or `None` when control
   * leaves `code` another way or more than `fuel` jumps are needed.
   */
  function Run(env: Env, ops: seq<Op>, code: seq<Block>, exit: Label, fuel: nat): Option<Env>
    decreases fuel
  {
    var (e, next) := ExecBlock(env, ops);
    if next.None? then None
    else if next.value == exit then Some(e)
    else match Find(code, next.value)
      case None => None
      case Some(b) => if fuel == 0 then None else Run(e, b.ops, code, exit, fuel - 1)
  }

  /** Control that reaches `exit` ends the run with the environment it has. */
  lemma RunArrives(env: Env, ops: seq<Op>, code: seq<Block>, exit: Label, fuel: nat)
    requires ExecBlock(env, ops).1 == Some(exit)
    ensures Run(env, ops, code, exit, fuel) == Some(ExecBlock(env, ops).0)
  {
  }

  /** Control that jumps to a block of `code` other than `exit` runs that block next, spending one unit of fuel. */
  lemma RunJumps(env: Env, ops: seq<Op>, code: seq<Block>, exit: Label, fuel: nat, b: Block)
    requires fuel > 0 && ExecBlock(env, ops).1 == Some(b.id) && b.id != exit && Find(code, b.id) == Some(b)
    ensures Run(env, ops, code, exit, fuel) == Run(ExecBlock(env, ops).0, b.ops, code, exit, fuel - 1)
  {
  }
}
