/**
 * What the inlined fixed-width division and modulo of the low-level IR
 * builder compute. Native division truncates toward zero; the emitted
 * blocks correct the truncated result so that running them leaves Python's
 * floor quotient or floor remainder in the result register.
 */
module LlArith {
  import opened Wrappers
  import opened Ir
  import opened IrExec
  import opened LlBuilder
  import TaggedInt

  /** The value existed before the code numbered from `n` was emitted. */
  predicate Before(v: Value, n: nat) {
    match v
    case Reg(r) => r < n
    case OpResult(o) => o < n
    case Int(_) => true
  }

  /** The environment after the shared head has run, its native op `k` giving `q`. */
  function HeadEnv(env: Env, n: nat, a: int, b: int, q: int): Env {
    env[OpResult(n + 1) := q][Reg(n) := q]
       [OpResult(n + 3) := if a < 0 then 1 else 0]
       [OpResult(n + 4) := if b < 0 then 1 else 0]
       [OpResult(n + 5) := if (a < 0) == (b < 0) then 1 else 0]
  }

  /** Running the head: the result register holds the native result, and control goes to `done` exactly when the signs agree. */
  lemma HeadRuns(env: Env, k: IntOpKind, n: nat, lhs: Value, rhs: Value)
    requires Before(lhs, n) && Before(rhs, n)
    ensures var a, b := Eval(env, lhs), Eval(env, rhs);
            ExecBlock(env, FloorHeadOps(k, n, lhs, rhs))
            == (HeadEnv(env, n, a, b, Arith(k, a, b)), Some(if (a < 0) == (b < 0) then n + 8 else n + 6))
  {
    var a, b := Eval(env, lhs), Eval(env, rhs);
    var q := Arith(k, a, b);
    var rest := SameSignsOps(n + 3, lhs, rhs) + [Op(n + 9, Branch(OpResult(n + 5), n + 8, n + 6))];
    AssignRuns(env, k, n, lhs, rhs, rest);
    SignsRun(env[OpResult(n + 1) := q][Reg(n) := q], n, lhs, rhs, a, b);
  }

  /** The native op and the assignment of its value to the result register. */
  lemma AssignRuns(env: Env, k: IntOpKind, n: nat, lhs: Value, rhs: Value, rest: seq<Op>)
    ensures var q := Arith(k, Eval(env, lhs), Eval(env, rhs));
            ExecBlock(env, [Op(n + 1, IntOp(k, lhs, rhs)), Op(n + 2, Assign(Reg(n), OpResult(n + 1)))] + rest)
            == ExecBlock(env[OpResult(n + 1) := q][Reg(n) := q], rest)
  {
    var o2 := Op(n + 2, Assign(Reg(n), OpResult(n + 1)));
    assert [Op(n + 1, IntOp(k, lhs, rhs)), o2] + rest == [Op(n + 1, IntOp(k, lhs, rhs))] + ([o2] + rest);
    ExecIntOp(env, n + 1, k, lhs, rhs, [o2] + rest);
    ExecAssign(env[OpResult(n + 1) := Arith(k, Eval(env, lhs), Eval(env, rhs))], n + 2, Reg(n), OpResult(n + 1), rest);
  }

  /** `is_same_native_int_signs` and the branch on it. */
  lemma SignsRun(e: Env, n: nat, lhs: Value, rhs: Value, a: int, b: int)
    requires Before(lhs, n) && Before(rhs, n) && Eval(e, lhs) == a && Eval(e, rhs) == b
    ensures ExecBlock(e, SameSignsOps(n + 3, lhs, rhs) + [Op(n + 9, Branch(OpResult(n + 5), n + 8, n + 6))])
            == (e[OpResult(n + 3) := if a < 0 then 1 else 0]
                 [OpResult(n + 4) := if b < 0 then 1 else 0]
                 [OpResult(n + 5) := if (a < 0) == (b < 0) then 1 else 0],
                Some(if (a < 0) == (b < 0) then n + 8 else n + 6))
  {
    var o4 := Op(n + 4, ComparisonOp(Slt, rhs, Int(0)));
    var o5 := Op(n + 5, ComparisonOp(Eq, OpResult(n + 3), OpResult(n + 4)));
    var o6 := Op(n + 9, Branch(OpResult(n + 5), n + 8, n + 6));
    assert SameSignsOps(n + 3, lhs, rhs) + [o6] == [Op(n + 3, ComparisonOp(Slt, lhs, Int(0)))] + ([o4] + ([o5] + [o6]));
    var e3 := e[OpResult(n + 3) := if a < 0 then 1 else 0];
    var e4 := e3[OpResult(n + 4) := if b < 0 then 1 else 0];
    ExecCompare(e, n + 3, Slt, lhs, Int(0), [o4] + ([o5] + [o6]));
    assert Eval(e3, rhs) == b;
    ExecCompare(e3, n + 4, Slt, rhs, Int(0), [o5] + [o6]);
    ExecCompare(e4, n + 5, Eq, OpResult(n + 3), OpResult(n + 4), [o6]);
  }

  /** Running the division's `tricky` block: control goes to `done` exactly when `q` times the divisor gives back the dividend. */
  lemma DivideTrickyRuns(e: Env, n: nat, lhs: Value, rhs: Value, a: int, b: int, q: int)
    requires Before(lhs, n) && Before(rhs, n)
    requires Eval(e, lhs) == a && Eval(e, rhs) == b && Eval(e, Reg(n)) == q
    ensures var e' := e[OpResult(n + 10) := Arith(IntOpKind.Mul, q, b)][OpResult(n + 11) := if Arith(IntOpKind.Mul, q, b) == a then 1 else 0];
            ExecBlock(e, DivideTrickyOps(n + 10, Reg(n), lhs, rhs, n + 8, n + 7))
            == (e', Some(if Arith(IntOpKind.Mul, q, b) == a then n + 8 else n + 7))
  {
    var o2 := Op(n + 11, ComparisonOp(Eq, OpResult(n + 10), lhs));
    var o3 := Op(n + 12, Branch(OpResult(n + 11), n + 8, n + 7));
    assert DivideTrickyOps(n + 10, Reg(n), lhs, rhs, n + 8, n + 7)
        == [Op(n + 10, IntOp(IntOpKind.Mul, Reg(n), rhs))] + ([o2] + [o3]);
    ExecIntOp(e, n + 10, IntOpKind.Mul, Reg(n), rhs, [o2] + [o3]);
    var e1 := e[OpResult(n + 10) := Arith(IntOpKind.Mul, q, b)];
    assert Eval(e1, lhs) == a;
    ExecCompare(e1, n + 11, Eq, OpResult(n + 10), lhs, [o3]);
  }

  /** Running the modulo's `tricky` block: control goes to `done` exactly when `q` is zero. */
  lemma ModTrickyRuns(e: Env, n: nat, q: int)
    requires Eval(e, Reg(n)) == q
    ensures ExecBlock(e, ModTrickyOps(n + 10, Reg(n), n + 8, n + 7))
            == (e[OpResult(n + 10) := if q == 0 then 1 else 0], Some(if q == 0 then n + 8 else n + 7))
  {
    var o2 := Op(n + 11, Branch(OpResult(n + 10), n + 8, n + 7));
    assert ModTrickyOps(n + 10, Reg(n), n + 8, n + 7) == [Op(n + 10, ComparisonOp(Eq, Reg(n), Int(0)))] + [o2];
    ExecCompare(e, n + 10, Eq, Reg(n), Int(0), [o2]);
  }

  /** Running an `adjust` block: the result register gets `q` corrected by `k` and the operand, then control reaches `done`. */
  lemma AdjustRuns(e: Env, k: IntOpKind, id: nat, n: nat, operand: Value, q: int)
    requires Eval(e, Reg(n)) == q && id > n
    ensures var c := Arith(k, q, Eval(e, operand));
            ExecBlock(e, AdjustOps(k, id, Reg(n), operand, n + 8)) == (e[OpResult(id) := c][Reg(n) := c], Some(n + 8))
  {
    var c := Arith(k, q, Eval(e, operand));
    var o2 := Op(id + 1, Assign(Reg(n), OpResult(id)));
    var o3 := Op(id + 2, OpKind.Goto(n + 8));
    assert AdjustOps(k, id, Reg(n), operand, n + 8) == [Op(id, IntOp(k, Reg(n), operand))] + ([o2] + [o3]);
    ExecIntOp(e, id, k, Reg(n), operand, [o2] + [o3]);
    ExecAssign(e[OpResult(id) := c], id + 1, Reg(n), OpResult(id), [o3]);
  }

  /** The blocks `inline_fixed_width_divide` opens after the current one: `tricky`, `adjust` and `done`. */
  function DivideBlocks(n: nat, lhs: Value, rhs: Value, h: Option<Label>): seq<Block> {
    [Block(n + 6, DivideTrickyOps(n + 10, Reg(n), lhs, rhs, n + 8, n + 7), h),
     Block(n + 7, AdjustOps(IntOpKind.Sub, n + 13, Reg(n), Int(1), n + 8), h),
     Block(n + 8, [], h)]
  }

  /** The blocks `inline_fixed_width_mod` opens after the current one. */
  function ModBlocks(n: nat, lhs: Value, rhs: Value, h: Option<Label>): seq<Block> {
    [Block(n + 6, ModTrickyOps(n + 10, Reg(n), n + 8, n + 7), h),
     Block(n + 7, AdjustOps(IntOpKind.Add, n + 12, Reg(n), rhs, n + 8), h),
     Block(n + 8, [], h)]
  }

  lemma DivideCode(blocks: seq<Block>, n: nat, lhs: Value, rhs: Value, h: Option<Label>)
    requires |blocks| > 0
    ensures DivideLayout(blocks, n, lhs, rhs, h)[|blocks|..] == DivideBlocks(n, lhs, rhs, h)
  {
    assert |AppendOps(blocks, FloorHeadOps(IntOpKind.Div, n, lhs, rhs))| == |blocks|;
  }

  lemma ModCode(blocks: seq<Block>, n: nat, lhs: Value, rhs: Value, h: Option<Label>)
    requires |blocks| > 0
    ensures ModLayout(blocks, n, lhs, rhs, h)[|blocks|..] == ModBlocks(n, lhs, rhs, h)
  {
    assert |AppendOps(blocks, FloorHeadOps(IntOpKind.Mod, n, lhs, rhs))| == |blocks|;
  }

  /** From the division's `tricky` block: the truncated quotient `q` is kept when exact, and lowered by one otherwise. */
  lemma DivideTail(e: Env, n: nat, lhs: Value, rhs: Value, h: Option<Label>, a: int, b: int, q: int)
    requires Before(lhs, n) && Before(rhs, n)
    requires Eval(e, lhs) == a && Eval(e, rhs) == b && Eval(e, Reg(n)) == q
    ensures var code := DivideBlocks(n, lhs, rhs, h);
            var r := Run(e, code[0].ops, code, n + 8, 1);
            r.Some? && Eval(r.value, Reg(n)) == if q * b == a then q else q - 1
  {
    var code := DivideBlocks(n, lhs, rhs, h);
    var p := Arith(IntOpKind.Mul, q, b);
    DivideTrickyRuns(e, n, lhs, rhs, a, b, q);
    var e7 := e[OpResult(n + 10) := p][OpResult(n + 11) := if p == a then 1 else 0];
    if p == a {
      RunArrives(e, code[0].ops, code, n + 8, 1);
    } else {
      assert Find(code, n + 7) == Some(code[1]);
      RunJumps(e, code[0].ops, code, n + 8, 1, code[1]);
      AdjustRuns(e7, IntOpKind.Sub, n + 13, n, Int(1), q);
      RunArrives(e7, code[1].ops, code, n + 8, 0);
    }
  }

  /** From the modulo's `tricky` block: the truncated remainder `q` is kept when zero, and moved by the divisor otherwise. */
  lemma ModTail(e: Env, n: nat, lhs: Value, rhs: Value, h: Option<Label>, b: int, q: int)
    requires Before(rhs, n) && Eval(e, rhs) == b && Eval(e, Reg(n)) == q
    ensures var code := ModBlocks(n, lhs, rhs, h);
            var r := Run(e, code[0].ops, code, n + 8, 1);
            r.Some? && Eval(r.value, Reg(n)) == if q == 0 then q else q + b
  {
    var code := ModBlocks(n, lhs, rhs, h);
    ModTrickyRuns(e, n, q);
    var e6 := e[OpResult(n + 10) := if q == 0 then 1 else 0];
    if q == 0 {
      RunArrives(e, code[0].ops, code, n + 8, 1);
    } else {
      assert Find(code, n + 7) == Some(code[1]);
      RunJumps(e, code[0].ops, code, n + 8, 1, code[1]);
      assert Eval(e6, rhs) == b;
      AdjustRuns(e6, IntOpKind.Add, n + 12, n, rhs, q);
      RunArrives(e6, code[1].ops, code, n + 8, 0);
    }
  }

  /**
   * `inline_fixed_width_divide` computes Python's `//`: running the code it
   * appends, from the ops added to the current block until control reaches
   * the `done` block, leaves the floor quotient in the result register.
   */
  lemma DivideFloors(blocks: seq<Block>, n: nat, lhs: Value, rhs: Value, h: Option<Label>, env: Env)
    requires |blocks| > 0 && Before(lhs, n) && Before(rhs, n) && Eval(env, rhs) != 0
    ensures var r := Run(env, FloorHeadOps(IntOpKind.Div, n, lhs, rhs), DivideLayout(blocks, n, lhs, rhs, h)[|blocks|..], n + 8, 2);
            r.Some? && Eval(r.value, Reg(n)) == TaggedInt.FloorDiv(Eval(env, lhs), Eval(env, rhs))
  {
    DivideCode(blocks, n, lhs, rhs, h);
    DivideRuns(n, lhs, rhs, h, env);
  }

  lemma DivideRuns(n: nat, lhs: Value, rhs: Value, h: Option<Label>, env: Env)
    requires Before(lhs, n) && Before(rhs, n) && Eval(env, rhs) != 0
    ensures var r := Run(env, FloorHeadOps(IntOpKind.Div, n, lhs, rhs), DivideBlocks(n, lhs, rhs, h), n + 8, 2);
            r.Some? && Eval(r.value, Reg(n)) == TaggedInt.FloorDiv(Eval(env, lhs), Eval(env, rhs))
  {
    var a, b := Eval(env, lhs), Eval(env, rhs);
    var q := TaggedInt.CDiv(a, b);
    var head := FloorHeadOps(IntOpKind.Div, n, lhs, rhs);
    var code := DivideBlocks(n, lhs, rhs, h);
    HeadRuns(env, IntOpKind.Div, n, lhs, rhs);
    TaggedInt.FloorDivFromCDiv(a, b);
    if (a < 0) == (b < 0) {
      RunArrives(env, head, code, n + 8, 2);
    } else {
      assert Find(code, n + 6) == Some(code[0]);
      RunJumps(env, head, code, n + 8, 2, code[0]);
      DivideTail(HeadEnv(env, n, a, b, q), n, lhs, rhs, h, a, b, q);
    }
  }

  /**
   * `inline_fixed_width_mod` computes Python's `%`: running the code it
   * appends leaves the floor remainder, zero or of the divisor's sign, in
   * the result register.
   */
  lemma ModFloors(blocks: seq<Block>, n: nat, lhs: Value, rhs: Value, h: Option<Label>, env: Env)
    requires |blocks| > 0 && Before(lhs, n) && Before(rhs, n) && Eval(env, rhs) != 0
    ensures var r := Run(env, FloorHeadOps(IntOpKind.Mod, n, lhs, rhs), ModLayout(blocks, n, lhs, rhs, h)[|blocks|..], n + 8, 2);
            r.Some? && Eval(r.value, Reg(n)) == TaggedInt.FloorMod(Eval(env, lhs), Eval(env, rhs))
  {
    ModCode(blocks, n, lhs, rhs, h);
    ModRuns(n, lhs, rhs, h, env);
  }

  lemma ModRuns(n: nat, lhs: Value, rhs: Value, h: Option<Label>, env: Env)
    requires Before(lhs, n) && Before(rhs, n) && Eval(env, rhs) != 0
    ensures var r := Run(env, FloorHeadOps(IntOpKind.Mod, n, lhs, rhs), ModBlocks(n, lhs, rhs, h), n + 8, 2);
            r.Some? && Eval(r.value, Reg(n)) == TaggedInt.FloorMod(Eval(env, lhs), Eval(env, rhs))
  {
    var a, b := Eval(env, lhs), Eval(env, rhs);
    var q := TaggedInt.CRem(a, b);
    var head := FloorHeadOps(IntOpKind.Mod, n, lhs, rhs);
    var code := ModBlocks(n, lhs, rhs, h);
    HeadRuns(env, IntOpKind.Mod, n, lhs, rhs);
    TaggedInt.FloorModFromCRem(a, b);
    if (a < 0) == (b < 0) {
      RunArrives(env, head, code, n + 8, 2);
    } else {
      assert Find(code, n + 6) == Some(code[0]);
      RunJumps(env, head, code, n + 8, 2, code[0]);
      ModTail(HeadEnv(env, n, a, b, q), n, lhs, rhs, h, b, q);
    }
  }

  /** `v` is a value of a `w`-bit signed native integer. */
  predicate FitsSigned(v: int, w: nat)
    requires w >= 1
  {
    0 - TaggedInt.Pow2(w - 1) <= v < TaggedInt.Pow2(w - 1)
  }

  /**
   * The inlined code is only emitted for a constant divisor other than 0 and
   * -1. Under that guard every value the blocks compute (the truncated
   * quotient, its product with the divisor, the truncated remainder and the
   * corrected results) is again a `w`-bit value, so the unbounded arithmetic
   * of the model agrees with the native one.
   */
  lemma InlinedDivisionFits(a: int, b: int, w: nat)
    requires w >= 2 && FitsSigned(a, w) && FitsSigned(b, w) && b != 0 && b != -1
    ensures FitsSigned(TaggedInt.CDiv(a, b), w) && FitsSigned(b * TaggedInt.CDiv(a, b), w)
    ensures FitsSigned(TaggedInt.CRem(a, b), w)
    ensures FitsSigned(TaggedInt.FloorDiv(a, b), w) && FitsSigned(TaggedInt.FloorMod(a, b), w)
  {
    var A, B := TaggedInt.Abs(a), TaggedInt.Abs(b);
    var q := A / B;
    SignedProduct(a, b, q);
    TaggedInt.FloorDivFromCDiv(a, b);
    TaggedInt.FloorDivMod(a, b);
    if B == 1 {
      assert b == 1 && q == A;
    } else {
      SmallQuotient(A, B, w);
    }
  }

  /** Dividing by at least two leaves room for the floor correction. */
  lemma SmallQuotient(A: nat, B: nat, w: nat)
    requires w >= 2 && 2 <= B && A <= TaggedInt.Pow2(w - 1)
    ensures A / B + 1 <= TaggedInt.Pow2(w - 1)
  {
    var q := A / B;
    assert A == B * q + A % B;
    MulMonotone(q, 2, B);
    assert TaggedInt.Pow2(w - 1) == 2 * TaggedInt.Pow2(w - 2);
  }

  /** The truncated quotient times the divisor has the dividend's sign and is no larger. */
  lemma SignedProduct(a: int, b: int, q: int)
    requires b != 0 && q == TaggedInt.Abs(a) / TaggedInt.Abs(b)
    ensures b * TaggedInt.CDiv(a, b) == (if a < 0 then -(TaggedInt.Abs(b) * q) else TaggedInt.Abs(b) * q)
    ensures 0 <= TaggedInt.Abs(b) * q <= TaggedInt.Abs(a)
  {
    var A, B := TaggedInt.Abs(a), TaggedInt.Abs(b);
    assert 0 <= A % B && A == B * q + A % B;
    var c := TaggedInt.CDiv(a, b);
    var s := if a < 0 then -1 else 1;
    var t := if b < 0 then -1 else 1;
    assert c == s * t * q && b == t * B;
    SignProduct(s, t, q, B);
  }

  lemma SignProduct(s: int, t: int, q: int, B: int)
    requires (s == 1 || s == -1) && (t == 1 || t == -1)
    ensures (t * B) * (s * t * q) == s * (B * q)
  {
    assert t * t == 1;
  }

  lemma MulMonotone(q: nat, x: nat, y: nat)
    requires x <= y
    ensures q * x <= q * y
  {
  }

  /** Without the guard, `-2^(w-1) / -1` leaves the `w`-bit range: C's overflow. */
  lemma MinusOneOverflows(w: nat)
    requires w >= 1
    ensures FitsSigned(0 - TaggedInt.Pow2(w - 1), w) && FitsSigned(-1, w)
    ensures !FitsSigned(TaggedInt.CDiv(0 - TaggedInt.Pow2(w - 1), -1), w)
  {
  }
}
