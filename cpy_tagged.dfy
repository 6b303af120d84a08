/**
 * The tagged-integer fast paths of mypyc's runtime header (mypyc/lib-rt/CPy.h)
 * on a 64-bit platform.
 *
 * A `CPyTagged` is one machine word. When its low bit (the tag) is clear it is
 * a "short" integer holding the value shifted left by one; when the tag is set
 * the word is a pointer to a Python int object with the tag bit or-ed in.
 * Every fast path below either produces a word (`Fast`) or defers to the
 * out-of-line slow path (`SlowPath`), which calls into CPython.
 *
 * Words are integers in [0, 2^64) and every C cast and wrap-around is written
 * out: `Signed` is the `(Py_ssize_t)` reinterpretation and `ToWord` the
 * conversion back, modulo 2^64. Bitwise operators are defined bit by bit.
 */
module TaggedInt {

  const INT_BITS: nat := 64
  const WORD: int := 0x1_0000_0000_0000_0000
  const HALF: int := 0x8000_0000_0000_0000
  const INT_TAG: int := 1
  const TAGGED_MAX: int := 0x3FFF_FFFF_FFFF_FFFF
  const TAGGED_MIN: int := -0x4000_0000_0000_0000
  const TAGGED_ABS_MIN: int := 0x4000_0000_0000_0000

  /** A `CPyTagged` / `size_t` word. */
  type Word = x: int | 0 <= x < WORD

  /** `(Py_ssize_t)x`: two's complement reading of a word. */
  function Signed(x: Word): (v: int)
    ensures -HALF <= v < HALF
    ensures v < 0 <==> x >= HALF
  {
    if x < HALF then x else x - WORD
  }

  /** `(CPyTagged)v` for a C integer value `v`: reduction modulo 2^64. */
  function ToWord(v: int): Word {
    v % WORD
  }

  lemma SignedToWord(v: int)
    requires -HALF <= v < HALF
    ensures Signed(ToWord(v)) == v
  {
  }

  lemma ToWordSigned(x: Word)
    ensures ToWord(Signed(x)) == x
  {
  }

  /** Values congruent modulo 2^64 convert to the same word. */
  lemma ToWordShift(v: int, k: int)
    ensures ToWord(v + k * WORD) == ToWord(v)
  {
  }

  /** Unsigned and signed word arithmetic wrap to the same word. */
  lemma ToWordSignedSum(x: Word, y: Word)
    ensures ToWord(x + y) == ToWord(Signed(x) + Signed(y))
    ensures ToWord(x - y) == ToWord(Signed(x) - Signed(y))
  {
    var kx := if x >= HALF then 1 else 0;
    var ky := if y >= HALF then 1 else 0;
    assert x + y == Signed(x) + Signed(y) + (kx + ky) * WORD;
    ToWordShift(Signed(x) + Signed(y), kx + ky);
    assert x - y == Signed(x) - Signed(y) + (kx - ky) * WORD;
    ToWordShift(Signed(x) - Signed(y), kx - ky);
  }

  lemma ToWordSignedProduct(q: int, y: Word)
    ensures ToWord(q * y) == ToWord(q * Signed(y))
  {
    if y >= HALF {
      assert q * y == q * Signed(y) + q * WORD;
      ToWordShift(q * Signed(y), q);
    }
  }

  // ---------------------------------------------------------------------------
  // Bitwise operators on the low n bits

  function Pow2(n: nat): (p: nat)
    ensures p >= 1
  {
    if n == 0 then 1 else 2 * Pow2(n - 1)
  }

  function BitAnd(a: nat, b: nat, n: nat): nat {
    if n == 0 then 0
    else (if a % 2 == 1 && b % 2 == 1 then 1 else 0) + 2 * BitAnd(a / 2, b / 2, n - 1)
  }

  function BitOr(a: nat, b: nat, n: nat): nat {
    if n == 0 then 0
    else (if a % 2 == 1 || b % 2 == 1 then 1 else 0) + 2 * BitOr(a / 2, b / 2, n - 1)
  }

  function BitXor(a: nat, b: nat, n: nat): nat {
    if n == 0 then 0
    else (if a % 2 != b % 2 then 1 else 0) + 2 * BitXor(a / 2, b / 2, n - 1)
  }

  /** `~x` on a word. */
  function BitNot(x: Word): Word {
    WORD - 1 - x
  }

  function And(a: Word, b: Word): Word {
    BitAndBound(a, b, INT_BITS);
    Pow2Values();
    BitAnd(a, b, INT_BITS)
  }

  function Or(a: Word, b: Word): Word {
    BitOrBound(a, b, INT_BITS);
    Pow2Values();
    BitOr(a, b, INT_BITS)
  }

  function Xor(a: Word, b: Word): Word {
    BitXorBound(a, b, INT_BITS);
    Pow2Values();
    BitXor(a, b, INT_BITS)
  }

  /** `x & ~CPY_INT_TAG`, written arithmetically (see `ClearTagValue`). */
  function ClearTag(x: Word): Word {
    x - x % 2
  }

  lemma {:induction false} BitAndBound(a: nat, b: nat, n: nat)
    ensures BitAnd(a, b, n) < Pow2(n)
  {
    if n > 0 { BitAndBound(a / 2, b / 2, n - 1); }
  }

  lemma {:induction false} BitOrBound(a: nat, b: nat, n: nat)
    ensures BitOr(a, b, n) < Pow2(n)
  {
    if n > 0 { BitOrBound(a / 2, b / 2, n - 1); }
  }

  lemma {:induction false} BitXorBound(a: nat, b: nat, n: nat)
    ensures BitXor(a, b, n) < Pow2(n)
  {
    if n > 0 { BitXorBound(a / 2, b / 2, n - 1); }
  }

  lemma Pow2Values()
    ensures Pow2(63) == HALF && Pow2(64) == WORD
  {
    Pow2Of32();
    Pow2Add(32, 32);
    assert Pow2(64) == 2 * Pow2(63);
  }

  lemma Pow2Of32()
    ensures Pow2(32) == 0x1_0000_0000
  {
    Pow2Of16();
    Pow2Add(16, 16);
  }

  lemma Pow2Of16()
    ensures Pow2(16) == 0x1_0000
  {
    Pow2Of8();
    Pow2Add(8, 8);
  }

  lemma Pow2Of8()
    ensures Pow2(8) == 0x100
  {
    assert Pow2(2) == 4;
    Pow2Add(2, 2);
    Pow2Add(4, 4);
  }

  lemma {:induction false} Pow2Add(m: nat, n: nat)
    ensures Pow2(m + n) == Pow2(m) * Pow2(n)
  {
    if m > 0 {
      Pow2Add(m - 1, n);
      assert Pow2(m + n) == 2 * Pow2(m - 1 + n);
    }
  }

  /** Halving a number below 2^n moves its top bit from position n-1 to n-2. */
  lemma TopBitHalf(a: nat, n: nat)
    requires n >= 2
    ensures a >= Pow2(n - 1) <==> a / 2 >= Pow2(n - 2)
  {
  }

  /** The top bit of `a op b` is `op` applied to the top bits. */
  lemma {:induction false} BitTopBits(a: nat, b: nat, n: nat)
    requires n >= 1 && a < Pow2(n) && b < Pow2(n)
    ensures BitAnd(a, b, n) >= Pow2(n - 1) <==> (a >= Pow2(n - 1) && b >= Pow2(n - 1))
    ensures BitOr(a, b, n) >= Pow2(n - 1) <==> (a >= Pow2(n - 1) || b >= Pow2(n - 1))
    ensures BitXor(a, b, n) >= Pow2(n - 1) <==> ((a >= Pow2(n - 1)) != (b >= Pow2(n - 1)))
  {
    if n >= 2 {
      BitTopBits(a / 2, b / 2, n - 1);
      TopBitHalf(a, n);
      TopBitHalf(b, n);
    }
  }

  /** The tag bit of `a op b` is `op` applied to the tag bits. */
  lemma LowBits(a: nat, b: nat, n: nat)
    requires n >= 1
    ensures BitAnd(a, b, n) % 2 == (if a % 2 == 1 && b % 2 == 1 then 1 else 0)
    ensures BitOr(a, b, n) % 2 == (if a % 2 == 1 || b % 2 == 1 then 1 else 0)
    ensures BitXor(a, b, n) % 2 == (if a % 2 != b % 2 then 1 else 0)
  {
    LowBit(if a % 2 == 1 && b % 2 == 1 then 1 else 0, BitAnd(a / 2, b / 2, n - 1));
    LowBit(if a % 2 == 1 || b % 2 == 1 then 1 else 0, BitOr(a / 2, b / 2, n - 1));
    LowBit(if a % 2 != b % 2 then 1 else 0, BitXor(a / 2, b / 2, n - 1));
  }

  lemma LowBit(bit: int, rest: int)
    requires 0 <= bit <= 1
    ensures (bit + 2 * rest) % 2 == bit && (bit + 2 * rest) / 2 == rest
  {
  }

  /** And-ing with n one-bits keeps a number below 2^n unchanged. */
  lemma {:induction false} BitAndOnes(a: nat, n: nat)
    requires a < Pow2(n)
    ensures BitAnd(a, Pow2(n) - 1, n) == a
  {
    if n > 0 {
      BitAndOnes(a / 2, n - 1);
      assert (Pow2(n) - 1) / 2 == Pow2(n - 1) - 1;
    }
  }

  /** `x & ~CPY_INT_TAG` clears exactly the tag bit. */
  lemma ClearTagValue(x: Word)
    ensures And(x, BitNot(INT_TAG)) == ClearTag(x)
  {
    Pow2Values();
    BitAndOnes(x / 2, 63);
    assert BitNot(INT_TAG) == WORD - 2;
    assert (WORD - 2) / 2 == Pow2(63) - 1;
  }

  /** Python's sign rules for the bitwise operators hold on the sign bit. */
  lemma SignBits(a: Word, b: Word)
    ensures Signed(And(a, b)) < 0 <==> Signed(a) < 0 && Signed(b) < 0
    ensures Signed(Or(a, b)) < 0 <==> Signed(a) < 0 || Signed(b) < 0
    ensures Signed(Xor(a, b)) < 0 <==> ((Signed(a) < 0) != (Signed(b) < 0))
  {
    Pow2Values();
    BitTopBits(a, b, 64);
  }

  // ---------------------------------------------------------------------------
  // Python's bitwise operators on unbounded integers

  /** The three bitwise operators `&`, `|` and `^`. */
  datatype BitOp = AndOp | OrOp | XorOp

  /** The operator on one pair of bits. */
  predicate ApplyBit(op: BitOp, p: bool, q: bool) {
    match op
    case AndOp => p && q
    case OrOp => p || q
    case XorOp => p != q
  }

  /** How far an integer is from the all-zero or all-one bit pattern. */
  function Magnitude(a: int): nat {
    if a >= 0 then a else -a - 1
  }

  /**
   * Python's `a & b`, `a | b` and `a ^ b` on ints: two's complement with an
   * infinite sign extension. Bits are taken from the bottom by halving
   * (rounding toward negative infinity) until both operands are `0` or `-1`,
   * whose bits are all zero or all one.
   */
  function PyBitwise(op: BitOp, a: int, b: int): int
    decreases Magnitude(a) + Magnitude(b)
  {
    if (a == 0 || a == -1) && (b == 0 || b == -1) then
      if ApplyBit(op, a == -1, b == -1) then -1 else 0
    else
      (if ApplyBit(op, a % 2 == 1, b % 2 == 1) then 1 else 0) + 2 * PyBitwise(op, a / 2, b / 2)
  }

  /** A few of Python's results: `6 & 3 == 2`, `-4 | 1 == -3`, `-1 ^ 5 == -6`. */
  lemma PyBitwiseExamples()
    ensures PyBitwise(AndOp, 6, 3) == 2
    ensures PyBitwise(OrOp, -4, 1) == -3
    ensures PyBitwise(XorOp, -1, 5) == -6
  {
    assert PyBitwise(AndOp, 1, 0) == 0;
    assert PyBitwise(OrOp, -1, 0) == -1;
    assert PyBitwise(XorOp, -1, 1) == -2;
  }

  /** Python's sign rules: `&` is negative when both are, `|` when either is, `^` when exactly one is. */
  lemma {:induction false} PyBitwiseSign(op: BitOp, a: int, b: int)
    ensures PyBitwise(op, a, b) < 0 <==> ApplyBit(op, a < 0, b < 0)
    decreases Magnitude(a) + Magnitude(b)
  {
    if !((a == 0 || a == -1) && (b == 0 || b == -1)) {
      PyBitwiseSign(op, a / 2, b / 2);
    }
  }

  /** Every operand splits into its lowest bit and the rest, including `0` and `-1`. */
  lemma {:induction false} PyBitwiseStep(op: BitOp, a: int, b: int)
    ensures PyBitwise(op, a, b)
            == (if ApplyBit(op, a % 2 == 1, b % 2 == 1) then 1 else 0) + 2 * PyBitwise(op, a / 2, b / 2)
  {
  }

  /** The word operator on the low `n` bits. */
  function WordOp(op: BitOp, a: nat, b: nat, n: nat): nat {
    match op
    case AndOp => BitAnd(a, b, n)
    case OrOp => BitOr(a, b, n)
    case XorOp => BitXor(a, b, n)
  }

  /** The two's complement reading of an `n`-bit number. */
  function SignedBits(a: nat, n: nat): int
    requires n >= 1
  {
    if a < Pow2(n - 1) then a else a - Pow2(n)
  }

  /** An `n`-bit two's complement number is its lowest bit plus twice the `n - 1` bits above it. */
  lemma SignedBitsSplit(a: nat, n: nat)
    requires n >= 2 && a < Pow2(n)
    ensures a / 2 < Pow2(n - 1)
    ensures SignedBits(a, n) == a % 2 + 2 * SignedBits(a / 2, n - 1)
  {
    assert Pow2(n) == 2 * Pow2(n - 1);
    assert Pow2(n - 1) == 2 * Pow2(n - 2);
  }

  /** The word operators take the lowest bit of each operand and recurse on the rest. */
  lemma WordOpStep(op: BitOp, a: nat, b: nat, n: nat)
    requires n >= 1
    ensures WordOp(op, a, b, n)
            == (if ApplyBit(op, a % 2 == 1, b % 2 == 1) then 1 else 0) + 2 * WordOp(op, a / 2, b / 2, n - 1)
  {
  }

  lemma WordOpBound(op: BitOp, a: nat, b: nat, n: nat)
    ensures WordOp(op, a, b, n) < Pow2(n)
  {
    match op
    case AndOp => BitAndBound(a, b, n);
    case OrOp => BitOrBound(a, b, n);
    case XorOp => BitXorBound(a, b, n);
  }

  /**
   * On `n`-bit words the bitwise operators agree with Python's operators on
   * the words' two's complement readings.
   */
  lemma {:induction false} WordOpSigned(op: BitOp, a: nat, b: nat, n: nat)
    requires n >= 1 && a < Pow2(n) && b < Pow2(n)
    ensures WordOp(op, a, b, n) < Pow2(n)
    ensures SignedBits(WordOp(op, a, b, n), n) == PyBitwise(op, SignedBits(a, n), SignedBits(b, n))
  {
    WordOpBound(op, a, b, n);
    WordOpStep(op, a, b, n);
    if n == 1 {
      WordOpSignedOneBit(op, a, b);
    } else {
      WordOpSigned(op, a / 2, b / 2, n - 1);
      WordOpSignedStep(op, a, b, n);
    }
  }

  /** The base case of `WordOpSigned`: one-bit words read as `0` and `-1`. */
  lemma WordOpSignedOneBit(op: BitOp, a: nat, b: nat)
    requires a < 2 && b < 2
    ensures SignedBits(WordOp(op, a, b, 1), 1) == PyBitwise(op, SignedBits(a, 1), SignedBits(b, 1))
  {
    WordOpStep(op, a, b, 1);
    assert WordOp(op, a / 2, b / 2, 0) == 0 by {
      match op
      case AndOp =>
      case OrOp =>
      case XorOp =>
    }
    assert Pow2(1) == 2;
  }

  /** The inductive step of `WordOpSigned`. */
  lemma WordOpSignedStep(op: BitOp, a: nat, b: nat, n: nat)
    requires n >= 2 && a < Pow2(n) && b < Pow2(n)
    requires WordOp(op, a / 2, b / 2, n - 1) < Pow2(n - 1)
    requires SignedBits(WordOp(op, a / 2, b / 2, n - 1), n - 1)
             == PyBitwise(op, SignedBits(a / 2, n - 1), SignedBits(b / 2, n - 1))
    requires WordOp(op, a, b, n) < Pow2(n)
    requires WordOp(op, a, b, n)
             == (if ApplyBit(op, a % 2 == 1, b % 2 == 1) then 1 else 0) + 2 * WordOp(op, a / 2, b / 2, n - 1)
    ensures SignedBits(WordOp(op, a, b, n), n) == PyBitwise(op, SignedBits(a, n), SignedBits(b, n))
  {
    var bit := if ApplyBit(op, a % 2 == 1, b % 2 == 1) then 1 else 0;
    var rest := WordOp(op, a / 2, b / 2, n - 1);
    var sa, sb := SignedBits(a, n), SignedBits(b, n);
    SignedBitsSplit(a, n);
    SignedBitsSplit(b, n);
    SignedBitsSplit(bit + 2 * rest, n);
    LowBit(bit, rest);
    LowBit(a % 2, SignedBits(a / 2, n - 1));
    LowBit(b % 2, SignedBits(b / 2, n - 1));
    assert sa % 2 == a % 2 && sa / 2 == SignedBits(a / 2, n - 1);
    assert sb % 2 == b % 2 && sb / 2 == SignedBits(b / 2, n - 1);
    PyBitwiseStep(op, sa, sb);
  }

  /** The bitwise operators on words read as `Py_ssize_t` are Python's. */
  lemma WordBitwiseSigned(op: BitOp, a: Word, b: Word)
    ensures WordOp(op, a, b, INT_BITS) < WORD && Signed(WordOp(op, a, b, INT_BITS)) == PyBitwise(op, Signed(a), Signed(b))
  {
    Pow2Values();
    WordOpSigned(op, a, b, INT_BITS);
  }

  // ---------------------------------------------------------------------------
  // Tags

  /**
   * `CPyTagged_CheckLong`, `x & CPY_INT_TAG`: the tag bit is set, so the word is
   * an object pointer. Written arithmetically (see `CheckLongIsTagBit`).
   */
  predicate CheckLong(x: Word) {
    x % 2 == 1
  }

  /** `CPyTagged_CheckShort`. */
  predicate CheckShort(x: Word) {
    !CheckLong(x)
  }

  /** A word is long exactly when its low bit is set, and short exactly when it is clear. */
  lemma CheckLongIsTagBit(x: Word)
    ensures CheckLong(x) <==> And(x, INT_TAG) != 0
  {
    LowBits(x, INT_TAG, INT_BITS);
    Pow2Values();
    BitAndBound(x / 2, 0, 63);
    assert BitAnd(x, INT_TAG, INT_BITS) == x % 2 + 2 * BitAnd(x / 2, 0, 63);
    BitAndZero(x / 2, 63);
  }

  lemma {:induction false} BitAndZero(a: nat, n: nat)
    ensures BitAnd(a, 0, n) == 0
  {
    if n > 0 { BitAndZero(a / 2, n - 1); }
  }

  /** `CPyTagged_ShortAsSsize_t`: arithmetic shift right by one. */
  function ShortAsSsize(x: Word): int {
    Signed(x) / 2
  }

  /** The integer a short word stands for. */
  function Value(x: Word): int {
    ShortAsSsize(x)
  }

  predicate InTaggedRange(v: int) {
    TAGGED_MIN <= v <= TAGGED_MAX
  }

  /** `v << 1` for a value that fits: the short encoding of `v`. */
  function ShortFrom(v: int): Word
    requires InTaggedRange(v)
  {
    ToWord(2 * v)
  }

  /** Encoding then decoding a short integer is the identity, in both directions. */
  lemma ShortRoundTrip(v: int)
    requires InTaggedRange(v)
    ensures CheckShort(ShortFrom(v)) && Value(ShortFrom(v)) == v
  {
  }

  lemma ShortDecode(x: Word)
    requires CheckShort(x)
    ensures InTaggedRange(Value(x)) && ShortFrom(Value(x)) == x && Signed(x) == 2 * Value(x)
  {
  }

  /** Two shorts compare as words exactly as their values compare. */
  lemma CompareShorts(x: Word, y: Word)
    requires CheckShort(x) && CheckShort(y)
    ensures x == y <==> Value(x) == Value(y)
    ensures Signed(x) < Signed(y) <==> Value(x) < Value(y)
  {
    ShortDecode(x);
    ShortDecode(y);
  }

  /** `CPyTagged_TooBig`: the value does not fit a short integer. */
  predicate TooBig(value: int)
    requires -HALF <= value < HALF
  {
    ToWord(value) > TAGGED_MAX && (value >= 0 || value < TAGGED_MIN)
  }

  lemma TooBigIsOutOfRange(value: int)
    requires -HALF <= value < HALF
    ensures TooBig(value) <==> !InTaggedRange(value)
  {
  }

  // ---------------------------------------------------------------------------
  // Overflow tests

  /** `CPyTagged_IsAddOverflow`. */
  predicate IsAddOverflow(sum: Word, left: Word, right: Word) {
    Signed(Xor(sum, left)) < 0 && Signed(Xor(sum, right)) < 0
  }

  /** `CPyTagged_IsSubtractOverflow`. */
  predicate IsSubtractOverflow(diff: Word, left: Word, right: Word) {
    Signed(Xor(diff, left)) < 0 && Signed(Xor(diff, right)) >= 0
  }

  /** The xor test flags exactly the sums that leave the signed 64-bit range. */
  lemma AddOverflowExact(left: Word, right: Word)
    ensures IsAddOverflow(ToWord(left + right), left, right)
        <==> !(-HALF <= Signed(left) + Signed(right) < HALF)
  {
    SignBits(ToWord(left + right), left);
    SignBits(ToWord(left + right), right);
    var s := Signed(left) + Signed(right);
    ToWordSignedSum(left, right);
    if -HALF <= s < HALF {
      SignedToWord(s);
    } else if s >= HALF {
      SignedToWord(s - WORD);
      ToWordShift(s - WORD, 1);
    } else {
      SignedToWord(s + WORD);
      ToWordShift(s + WORD, -1);
    }
  }

  lemma SubtractOverflowExact(left: Word, right: Word)
    ensures IsSubtractOverflow(ToWord(left - right), left, right)
        <==> !(-HALF <= Signed(left) - Signed(right) < HALF)
  {
    SignBits(ToWord(left - right), left);
    SignBits(ToWord(left - right), right);
    var d := Signed(left) - Signed(right);
    ToWordSignedSum(left, right);
    if -HALF <= d < HALF {
      SignedToWord(d);
    } else if d >= HALF {
      SignedToWord(d - WORD);
      ToWordShift(d - WORD, 1);
    } else {
      SignedToWord(d + WORD);
      ToWordShift(d + WORD, -1);
    }
  }

  /** `CPyTagged_IsMultiplyOverflow`: conservative, only small non-negative operands pass. */
  predicate IsMultiplyOverflow(left: Word, right: Word) {
    left >= MUL_LIMIT || right >= MUL_LIMIT
  }

  /** `1U << (CPY_INT_BITS/2 - 1)`. */
  const MUL_LIMIT: int := 0x8000_0000

  /** `CPyTagged_MaybeFloorDivideFault`: division by zero or of the most negative word. */
  predicate MaybeFloorDivideFault(left: Word, right: Word) {
    right == 0 || left == ToWord(-HALF)
  }

  /** `CPyTagged_MaybeRemainderFault`. */
  predicate MaybeRemainderFault(left: Word, right: Word) {
    right == 0
  }

  // ---------------------------------------------------------------------------
  // Integer division as C and as Python define it

  function Abs(a: int): nat {
    if a < 0 then -a else a
  }

  /** C's `/`: truncates toward zero. */
  function CDiv(a: int, b: int): int
    requires b != 0
  {
    var q := Abs(a) / Abs(b);
    if (a < 0) == (b < 0) then q else -q
  }

  /** C's `%`: the remainder of truncating division (sign of the dividend). */
  function CRem(a: int, b: int): int
    requires b != 0
  {
    a - b * CDiv(a, b)
  }

  /** Python's `//`: rounds toward negative infinity. */
  function FloorDiv(a: int, b: int): int
    requires b != 0
  {
    if b > 0 then a / b else (-a) / (-b)
  }

  /** Python's `%`: zero or the sign of the divisor. */
  function FloorMod(a: int, b: int): int
    requires b != 0
  {
    a - b * FloorDiv(a, b)
  }

  /** Python's division identity and sign rule for `//` and `%`. */
  lemma FloorDivMod(a: int, b: int)
    requires b != 0
    ensures a == b * FloorDiv(a, b) + FloorMod(a, b)
    ensures b > 0 ==> 0 <= FloorMod(a, b) < b
    ensures b < 0 ==> b < FloorMod(a, b) <= 0
  {
    if b < 0 {
      assert (-a) == (-b) * ((-a) / (-b)) + (-a) % (-b);
    }
  }

  /** Euclidean division is unique. */
  lemma DivUnique(x: int, p: int, q: int, r: int)
    requires p > 0 && x == p * q + r && 0 <= r < p
    ensures x / p == q && x % p == r
  {
    var t := x / p - q;
    assert p * t == r - x % p;
    if t >= 1 {
      MulAtLeast(p, t);
    } else if t <= -1 {
      MulAtLeast(p, -t);
    }
  }

  lemma MulAtLeast(p: int, t: int)
    requires p > 0 && t >= 1
    ensures p * t >= p
  {
  }

  lemma CDivBound(a: int, b: int)
    requires b != 0
    ensures Abs(b * CDiv(a, b)) <= Abs(a)
    ensures Abs(CDiv(a, b)) <= Abs(a)
  {
    var A, B := Abs(a), Abs(b);
    var q := A / B;
    assert A == B * q + A % B;
    assert Abs(CDiv(a, b)) == q;
    if q >= 1 {
      MulAtLeast(q, B);
      assert B * q >= q;
    }
    MulAbs(b, CDiv(a, b));
  }

  lemma MulAbs(x: int, y: int)
    ensures Abs(x * y) == Abs(x) * Abs(y)
  {
    if x < 0 && y < 0 {
      assert x * y == (-x) * (-y);
    } else if x < 0 {
      assert x * y == -((-x) * y);
    } else if y < 0 {
      assert x * y == -(x * (-y));
    }
  }

  /**
   * C's truncating quotient becomes Python's floor quotient by subtracting one
   * when the operand signs differ and the division is inexact.
   */
  lemma FloorDivFromCDiv(a: int, b: int)
    requires b != 0
    ensures FloorDiv(a, b)
         == (if (a < 0) != (b < 0) && CDiv(a, b) * b != a then CDiv(a, b) - 1 else CDiv(a, b))
  {
    if (a < 0) != (b < 0) {
      FloorDivMixedSigns(a, b);
    }
  }

  lemma FloorDivMixedSigns(a: int, b: int)
    requires b != 0 && (a < 0) != (b < 0)
    ensures FloorDiv(a, b) == (if CDiv(a, b) * b != a then CDiv(a, b) - 1 else CDiv(a, b))
  {
    var A: int, B: int := Abs(a), Abs(b);
    var q: int, r: int := A / B, A % B;
    assert A == B * q + r && 0 <= r < B;
    assert CDiv(a, b) == -q;
    assert FloorDiv(a, b) == (-A) / B;
    ExactIffNoRemainder(a, b, q, r);
    NegatedQuotient(A, B, q, r);
  }

  lemma ExactIffNoRemainder(a: int, b: int, q: int, r: int)
    requires b != 0 && (a < 0) != (b < 0)
    requires Abs(a) == Abs(b) * q + r && 0 <= r < Abs(b)
    ensures (-q) * b == a <==> r == 0
  {
    NegProduct(q, b);
    if b < 0 {
      NegProduct(q, -b);
      assert (-q) * b == (-b) * q;
    } else {
      assert (-q) * b == -(b * q);
    }
  }

  /** Negating the dividend of an inexact division moves the floor quotient down by one more. */
  lemma NegatedQuotient(A: int, B: int, q: int, r: int)
    requires B > 0 && A == B * q + r && 0 <= r < B
    ensures (-A) / B == (if r == 0 then -q else -q - 1)
  {
    NegProduct(B, q);
    if r == 0 {
      DivUnique(-A, B, -q, 0);
    } else {
      assert -A == B * (-q - 1) + (B - r) by {
        NegProduct(B, -q);
        assert B * (-q - 1) == B * (-q) - B;
      }
      DivUnique(-A, B, -q - 1, B - r);
    }
  }

  lemma NegProduct(x: int, y: int)
    ensures (-x) * y == -(x * y) && x * (-y) == -(x * y) && x * y == y * x
    ensures x * (y - 1) == x * y - x
  {
  }

  /**
   * C's remainder becomes Python's modulus by adding the divisor when the
   * operand signs differ and the remainder is nonzero.
   */
  lemma FloorModFromCRem(a: int, b: int)
    requires b != 0
    ensures FloorMod(a, b) == (if (a < 0) != (b < 0) && CRem(a, b) != 0 then CRem(a, b) + b else CRem(a, b))
  {
    FloorDivFromCDiv(a, b);
  }

  /** Doubling both operands leaves the truncating quotient unchanged. */
  lemma CDivScale(a: int, b: int)
    requires b != 0
    ensures CDiv(2 * a, 2 * b) == CDiv(a, b)
  {
    var q := Abs(a) / Abs(b);
    var r := Abs(a) % Abs(b);
    DivUnique(Abs(2 * a), Abs(2 * b), q, 2 * r);
  }

  // ---------------------------------------------------------------------------
  // Fast paths

  /** The outcome of an inline operation: a result word, or a call to the slow path. */
  datatype Outcome = Fast(result: Word) | SlowPath

  /** `CPyTagged_Add`: two shorts whose sum fits add in place. */
  function Add(left: Word, right: Word): (r: Outcome)
    ensures r.Fast? <==> (CheckShort(left) && CheckShort(right) && InTaggedRange(Value(left) + Value(right)))
    ensures r.Fast? ==> CheckShort(r.result) && Value(r.result) == Value(left) + Value(right)
  {
    if CheckShort(left) && CheckShort(right) then
      var sum := ToWord(left + right);
      AddFast(left, right);
      if !IsAddOverflow(sum, left, right) then Fast(sum) else SlowPath
    else SlowPath
  }

  lemma AddFast(left: Word, right: Word)
    requires CheckShort(left) && CheckShort(right)
    ensures !IsAddOverflow(ToWord(left + right), left, right) <==> InTaggedRange(Value(left) + Value(right))
    ensures InTaggedRange(Value(left) + Value(right)) ==>
              CheckShort(ToWord(left + right)) && Value(ToWord(left + right)) == Value(left) + Value(right)
  {
    ShortDecode(left);
    ShortDecode(right);
    AddOverflowExact(left, right);
    ToWordSignedSum(left, right);
    if InTaggedRange(Value(left) + Value(right)) {
      ShortRoundTrip(Value(left) + Value(right));
    }
  }

  /** `CPyTagged_Subtract`. */
  function Subtract(left: Word, right: Word): (r: Outcome)
    ensures r.Fast? <==> (CheckShort(left) && CheckShort(right) && InTaggedRange(Value(left) - Value(right)))
    ensures r.Fast? ==> CheckShort(r.result) && Value(r.result) == Value(left) - Value(right)
  {
    if CheckShort(left) && CheckShort(right) then
      var diff := ToWord(left - right);
      SubtractFast(left, right);
      if !IsSubtractOverflow(diff, left, right) then Fast(diff) else SlowPath
    else SlowPath
  }

  lemma SubtractFast(left: Word, right: Word)
    requires CheckShort(left) && CheckShort(right)
    ensures !IsSubtractOverflow(ToWord(left - right), left, right) <==> InTaggedRange(Value(left) - Value(right))
    ensures InTaggedRange(Value(left) - Value(right)) ==>
              CheckShort(ToWord(left - right)) && Value(ToWord(left - right)) == Value(left) - Value(right)
  {
    ShortDecode(left);
    ShortDecode(right);
    SubtractOverflowExact(left, right);
    ToWordSignedSum(left, right);
    if InTaggedRange(Value(left) - Value(right)) {
      ShortRoundTrip(Value(left) - Value(right));
    }
  }

  /**
   * `CPyTagged_Multiply`: the fast path is taken only for two non-negative
   * operands below 2^30, whose product always fits.
   */
  function Multiply(left: Word, right: Word): (r: Outcome)
    ensures r.Fast? <==> (CheckShort(left) && CheckShort(right)
                          && 0 <= Value(left) < MUL_LIMIT / 2 && 0 <= Value(right) < MUL_LIMIT / 2)
    ensures r.Fast? ==> CheckShort(r.result) && Value(r.result) == Value(left) * Value(right)
  {
    if CheckShort(left) && CheckShort(right) then
      MultiplyFast(left, right);
      if !IsMultiplyOverflow(left, right) then Fast(ToWord(left * ShortAsSsize(right))) else SlowPath
    else SlowPath
  }

  lemma MultiplyFast(left: Word, right: Word)
    requires CheckShort(left) && CheckShort(right)
    ensures !IsMultiplyOverflow(left, right) <==> 0 <= Value(left) < MUL_LIMIT / 2 && 0 <= Value(right) < MUL_LIMIT / 2
    ensures !IsMultiplyOverflow(left, right) ==>
              var w := ToWord(left * ShortAsSsize(right));
              CheckShort(w) && Value(w) == Value(left) * Value(right)
  {
    ShortDecode(left);
    ShortDecode(right);
    var a, b := Value(left), Value(right);
    if !IsMultiplyOverflow(left, right) {
      MultiplyFits(a, b);
      assert left * ShortAsSsize(right) == 2 * (a * b);
      ShortRoundTrip(a * b);
    }
  }

  lemma MultiplyFits(a: int, b: int)
    requires 0 <= a < MUL_LIMIT / 2 && 0 <= b < MUL_LIMIT / 2
    ensures 0 <= a * b < 0x1000_0000_0000_0000 && (2 * a) * b == 2 * (a * b)
  {
    if a > 0 {
      assert a * b <= a * (MUL_LIMIT / 2);
      assert a * (MUL_LIMIT / 2) <= (MUL_LIMIT / 2) * (MUL_LIMIT / 2);
    }
  }

  /** `CPyTagged_Negate`: every short but the most negative one negates in place. */
  function Negate(num: Word): (r: Outcome)
    ensures r.Fast? <==> (CheckShort(num) && Value(num) != TAGGED_MIN)
    ensures r.Fast? ==> CheckShort(r.result) && Value(r.result) == -Value(num)
  {
    if CheckShort(num) then
      NegateFast(num);
      if num != ToWord(HALF) then Fast(ToWord(-(num as int))) else SlowPath
    else SlowPath
  }

  lemma NegateFast(num: Word)
    requires CheckShort(num)
    ensures num != ToWord(HALF) <==> Value(num) != TAGGED_MIN
    ensures num != ToWord(HALF) ==>
              CheckShort(ToWord(-(num as int))) && Value(ToWord(-(num as int))) == -Value(num)
  {
    ShortDecode(num);
    if num != ToWord(HALF) {
      ShortRoundTrip(-Value(num));
      if num >= HALF {
        ToWordShift(-2 * Value(num), -1);
      }
    }
  }

  /**
   * `CPyTagged_FloorDivide`: Python's `//` on shorts, from C's truncating
   * division corrected by one when the signs differ and the division is inexact.
   */
  function FloorDivide(left: Word, right: Word): (r: Outcome)
    ensures r.Fast? <==> (CheckShort(left) && CheckShort(right)
                          && Value(right) != 0 && Value(left) != TAGGED_MIN)
    ensures r.Fast? ==> CheckShort(r.result) && Value(r.result) == FloorDiv(Value(left), Value(right))
  {
    if CheckShort(left) && CheckShort(right) then
      FloorDivideFast(left, right);
      if !MaybeFloorDivideFault(left, right) then Fast(FloorDivideShort(left, right)) else SlowPath
    else SlowPath
  }

  /** The in-place branch of `CPyTagged_FloorDivide`: truncate, round down, re-tag. */
  function FloorDivideShort(left: Word, right: Word): Word
    requires CheckShort(left) && CheckShort(right) && !MaybeFloorDivideFault(left, right)
  {
    ShortDecode(right);
    var result := CDiv(ShortAsSsize(left), ShortAsSsize(right));
    var rounded :=
      if (Signed(left) < 0) != (Signed(right) < 0) && ToWord(result * right) != left
      then result - 1 else result;
    ToWord(rounded * 2)
  }

  lemma FloorDivideFast(left: Word, right: Word)
    requires CheckShort(left) && CheckShort(right)
    ensures !MaybeFloorDivideFault(left, right) <==> Value(right) != 0 && Value(left) != TAGGED_MIN
    ensures !MaybeFloorDivideFault(left, right) ==>
              CheckShort(FloorDivideShort(left, right))
              && Value(FloorDivideShort(left, right)) == FloorDiv(Value(left), Value(right))
  {
    ShortDecode(left);
    ShortDecode(right);
    if !MaybeFloorDivideFault(left, right) {
      FloorDivideRounding(left, right);
      var f := FloorDiv(Value(left), Value(right));
      ShortRoundTrip(f);
      assert FloorDivideShort(left, right) == ShortFrom(f);
    }
  }

  lemma FloorDivideRounding(left: Word, right: Word)
    requires CheckShort(left) && CheckShort(right) && right != 0 && left != HALF
    ensures var result := CDiv(ShortAsSsize(left), ShortAsSsize(right));
            var rounded :=
              if (Signed(left) < 0) != (Signed(right) < 0) && ToWord(result * right) != left
              then result - 1 else result;
            rounded == FloorDiv(Value(left), Value(right)) && InTaggedRange(rounded)
  {
    ShortDecode(left);
    ShortDecode(right);
    var a, b := Value(left), Value(right);
    var q := CDiv(a, b);
    ExactnessTest(left, right, q);
    FloorDivFromCDiv(a, b);
    CDivBound(a, b);
  }

  /** `result * right != left` tests whether the truncating quotient `q` is exact. */
  lemma ExactnessTest(left: Word, right: Word, q: int)
    requires CheckShort(left) && CheckShort(right) && right != 0
    requires q == CDiv(Value(left), Value(right))
    ensures ToWord(q * right) == left <==> q * Value(right) == Value(left)
  {
    ShortDecode(left);
    ShortDecode(right);
    var a, b := Value(left), Value(right);
    var m := q * b;
    assert -HALF <= 2 * m < HALF by {
      CDivBound(a, b);
      assert b * q == m;
    }
    assert ToWord(q * right) == ToWord(2 * m) by {
      ToWordSignedProduct(q, right);
      DoubleProduct(q, b);
    }
    SignedToWord(2 * m);
    WordsEqualBySigned(ToWord(2 * m), left);
  }

  lemma DoubleProduct(q: int, b: int)
    ensures q * (2 * b) == 2 * (q * b)
  {
  }

  lemma WordsEqualBySigned(x: Word, y: Word)
    ensures x == y <==> Signed(x) == Signed(y)
  {
  }

  /**
   * `CPyTagged_Remainder`: Python's `%` on shorts, from C's remainder on the
   * still-tagged words corrected by the divisor when the signs differ.
   */
  function Remainder(left: Word, right: Word): (r: Outcome)
    ensures r.Fast? <==> (CheckShort(left) && CheckShort(right) && Value(right) != 0)
    ensures r.Fast? ==> CheckShort(r.result) && Value(r.result) == FloorMod(Value(left), Value(right))
  {
    if CheckShort(left) && CheckShort(right) then
      ShortDecode(right);
      if !MaybeRemainderFault(left, right) then
        var result := CRem(Signed(left), Signed(right));
        RemainderCorrection(left, right);
        if (Signed(right) < 0) != (Signed(left) < 0) && result != 0 then
          Fast(ToWord(result + right))
        else
          Fast(ToWord(result))
      else SlowPath
    else SlowPath
  }

  lemma RemainderCorrection(left: Word, right: Word)
    requires CheckShort(left) && CheckShort(right) && right != 0
    ensures var result := CRem(Signed(left), Signed(right));
            var fixed := if (Signed(right) < 0) != (Signed(left) < 0) && result != 0
                         then ToWord(result + right) else ToWord(result);
            CheckShort(fixed) && Value(fixed) == FloorMod(Value(left), Value(right))
  {
    ShortDecode(left);
    ShortDecode(right);
    var a, b := Value(left), Value(right);
    var result := CRem(Signed(left), Signed(right));
    TaggedRemainder(a, b);
    assert result == 2 * CRem(a, b);
    FloorModFromCRem(a, b);
    var m := FloorMod(a, b);
    FloorDivMod(a, b);
    assert InTaggedRange(m);
    ShortRoundTrip(m);
    if (Signed(right) < 0) != (Signed(left) < 0) && result != 0 {
      assert m == CRem(a, b) + b;
      assert ToWord(result + right) == ToWord(2 * m) by {
        if right >= HALF {
          ToWordShift(result + 2 * b, 1);
        }
      }
    }
  }

  /** C's remainder of the doubled operands is twice the remainder of the values. */
  lemma TaggedRemainder(a: int, b: int)
    requires b != 0
    ensures CRem(2 * a, 2 * b) == 2 * CRem(a, b)
  {
    CDivScale(a, b);
    var q := CDiv(a, b);
    assert CRem(2 * a, 2 * b) == 2 * a - (2 * b) * q;
    assert (2 * b) * q == 2 * (b * q);
  }

  /**
   * `CPyTagged_Invert`: `~n == -n - 1` on shorts. The guard compares the word
   * with the magnitude `CPY_TAGGED_ABS_MIN`, so the one short it sends to the
   * slow path is the value 2^61, whose inverse would have fitted.
   */
  function Invert(num: Word): (r: Outcome)
    ensures r.Fast? <==> (CheckShort(num) && Value(num) != TAGGED_ABS_MIN / 2)
    ensures r.Fast? ==> CheckShort(r.result) && Value(r.result) == -Value(num) - 1
  {
    if CheckShort(num) then
      InvertFast(num);
      if num != TAGGED_ABS_MIN then Fast(ClearTag(BitNot(num))) else SlowPath
    else SlowPath
  }

  lemma InvertFast(num: Word)
    requires CheckShort(num)
    ensures num != TAGGED_ABS_MIN <==> Value(num) != TAGGED_ABS_MIN / 2
    ensures CheckShort(ClearTag(BitNot(num))) && Value(ClearTag(BitNot(num))) == -Value(num) - 1
  {
    ShortDecode(num);
    ShortRoundTrip(-Value(num) - 1);
    assert ClearTag(BitNot(num)) == WORD - 2 - num;
    if num >= HALF {
      assert WORD - 2 - num == -2 - Signed(num);
    } else {
      ToWordShift(-2 - num, 1);
    }
  }

  /**
   * `CPyTagged_And`: two shorts are and-ed as words. The result is the short
   * holding Python's `&` of the two values, which is negative exactly when
   * both operands are.
   */
  function BitwiseAnd(left: Word, right: Word): (r: Outcome)
    ensures r.Fast? <==> (CheckShort(left) && CheckShort(right))
    ensures r.Fast? ==> Value(r.result) == PyBitwise(AndOp, Value(left), Value(right))
    ensures r.Fast? ==> (CheckShort(r.result)
                         && (Value(r.result) < 0 <==> Value(left) < 0 && Value(right) < 0))
  {
    if CheckShort(left) && CheckShort(right) then
      BitwiseShort(left, right);
      Fast(And(left, right))
    else SlowPath
  }

  /** `CPyTagged_Or`: the short holding Python's `|`, negative exactly when either operand is. */
  function BitwiseOr(left: Word, right: Word): (r: Outcome)
    ensures r.Fast? <==> (CheckShort(left) && CheckShort(right))
    ensures r.Fast? ==> Value(r.result) == PyBitwise(OrOp, Value(left), Value(right))
    ensures r.Fast? ==> (CheckShort(r.result)
                         && (Value(r.result) < 0 <==> Value(left) < 0 || Value(right) < 0))
  {
    if CheckShort(left) && CheckShort(right) then
      BitwiseShort(left, right);
      Fast(Or(left, right))
    else SlowPath
  }

  /** `CPyTagged_Xor`: the short holding Python's `^`, negative exactly when the operand signs differ. */
  function BitwiseXor(left: Word, right: Word): (r: Outcome)
    ensures r.Fast? <==> (CheckShort(left) && CheckShort(right))
    ensures r.Fast? ==> Value(r.result) == PyBitwise(XorOp, Value(left), Value(right))
    ensures r.Fast? ==> (CheckShort(r.result)
                         && (Value(r.result) < 0 <==> ((Value(left) < 0) != (Value(right) < 0))))
  {
    if CheckShort(left) && CheckShort(right) then
      BitwiseShort(left, right);
      Fast(Xor(left, right))
    else SlowPath
  }

  /**
   * On two shorts the word operators give a short word holding Python's
   * `&`, `|` and `^` of the two values.
   */
  lemma BitwiseShort(left: Word, right: Word)
    requires CheckShort(left) && CheckShort(right)
    ensures CheckShort(And(left, right)) && CheckShort(Or(left, right)) && CheckShort(Xor(left, right))
    ensures Value(And(left, right)) == PyBitwise(AndOp, Value(left), Value(right))
    ensures Value(Or(left, right)) == PyBitwise(OrOp, Value(left), Value(right))
    ensures Value(Xor(left, right)) == PyBitwise(XorOp, Value(left), Value(right))
    ensures Value(And(left, right)) < 0 <==> Value(left) < 0 && Value(right) < 0
    ensures Value(Or(left, right)) < 0 <==> Value(left) < 0 || Value(right) < 0
    ensures Value(Xor(left, right)) < 0 <==> ((Value(left) < 0) != (Value(right) < 0))
  {
    ShortBitwise(AndOp, left, right);
    ShortBitwise(OrOp, left, right);
    ShortBitwise(XorOp, left, right);
    PyBitwiseSign(AndOp, Value(left), Value(right));
    PyBitwiseSign(OrOp, Value(left), Value(right));
    PyBitwiseSign(XorOp, Value(left), Value(right));
  }

  /** One operator of `BitwiseShort`: the tag bits stay clear and the value is Python's. */
  lemma ShortBitwise(op: BitOp, left: Word, right: Word)
    requires CheckShort(left) && CheckShort(right)
    ensures WordOp(op, left, right, INT_BITS) < WORD
    ensures CheckShort(WordOp(op, left, right, INT_BITS))
    ensures Value(WordOp(op, left, right, INT_BITS)) == PyBitwise(op, Value(left), Value(right))
  {
    ShortDecode(left);
    ShortDecode(right);
    WordBitwiseSigned(op, left, right);
    var w: Word := WordOp(op, left, right, INT_BITS);
    PyBitwiseStep(op, 2 * Value(left), 2 * Value(right));
    assert (2 * Value(left)) % 2 == 0 && (2 * Value(left)) / 2 == Value(left);
    assert (2 * Value(right)) % 2 == 0 && (2 * Value(right)) / 2 == Value(right);
    assert Signed(w) == 2 * PyBitwise(op, Value(left), Value(right));
  }

  /**
   * `CPyTagged_Rshift`: Python's `>>` on a short and a non-negative short
   * count, which rounds toward negative infinity; counts of 64 or more give 0
   * or -1 by the sign of the operand.
   */
  function Rshift(left: Word, right: Word): (r: Outcome)
    ensures r.Fast? <==> (CheckShort(left) && CheckShort(right) && Value(right) >= 0)
    ensures r.Fast? ==> (CheckShort(r.result)
                         && Value(r.result) == FloorDiv(Value(left), Pow2(Value(right))))
  {
    if CheckShort(left) && CheckShort(right) && Signed(right) >= 0 then
      var count := ShortAsSsize(right);
      RshiftFast(left, count);
      if count >= INT_BITS then
        if Signed(left) >= 0 then Fast(0) else Fast(ShortFrom(-1))
      else Fast(ClearTag(ToWord(Signed(left) / Pow2(count))))
    else SlowPath
  }

  lemma RshiftFast(left: Word, count: nat)
    requires CheckShort(left)
    ensures count >= INT_BITS && Signed(left) >= 0 ==> FloorDiv(Value(left), Pow2(count)) == 0
    ensures count >= INT_BITS && Signed(left) < 0 ==>
              CheckShort(ShortFrom(-1)) && Value(ShortFrom(-1)) == FloorDiv(Value(left), Pow2(count))
    ensures count < INT_BITS ==>
              var w := ClearTag(ToWord(Signed(left) / Pow2(count)));
              CheckShort(w) && Value(w) == FloorDiv(Value(left), Pow2(count))
  {
    ShortDecode(left);
    if count >= INT_BITS {
      RshiftAll(Value(left), count);
      ShortRoundTrip(-1);
    } else {
      RshiftSome(Value(left), count);
    }
  }

  /** A shift by 64 or more leaves only the sign. */
  lemma RshiftAll(a: int, count: nat)
    requires InTaggedRange(a) && count >= INT_BITS
    ensures a >= 0 ==> a / Pow2(count) == 0
    ensures a < 0 ==> a / Pow2(count) == -1
  {
    Pow2Values();
    Pow2Mono(INT_BITS, count);
    var p := Pow2(count);
    if a >= 0 {
      DivUnique(a, p, 0, a);
    } else {
      DivUnique(a, p, -1, a + p);
    }
  }

  /** A shift below 64 of the tagged word, with the tag cleared, is the tagged shift of the value. */
  lemma RshiftSome(a: int, count: nat)
    requires InTaggedRange(a) && count < INT_BITS
    ensures var w := ClearTag(ToWord((2 * a) / Pow2(count)));
            CheckShort(w) && Value(w) == a / Pow2(count)
  {
    var p := Pow2(count);
    var m := (2 * a) / p;
    DivBounds(2 * a, p);
    DivBounds(a, p);
    DivDouble(a, p);
    ClearTagToWord(m);
    assert m - m % 2 == 2 * (a / p);
    ShortRoundTrip(a / p);
  }

  lemma {:induction false} Pow2Mono(m: nat, n: nat)
    requires m <= n
    ensures Pow2(m) <= Pow2(n)
    decreases n - m
  {
    if m < n {
      Pow2Mono(m, n - 1);
    }
  }

  /** Floor division by a positive divisor moves toward zero without crossing it. */
  lemma DivBounds(x: int, p: int)
    requires p >= 1
    ensures x >= 0 ==> 0 <= x / p <= x
    ensures x < 0 ==> x <= x / p < 0
  {
    var q, r := x / p, x % p;
    assert x == p * q + r && 0 <= r < p;
    if q >= 1 {
      MulAtLeast(q, p);
      assert p * q >= q by { NegProduct(p, q); }
    } else if q <= -1 {
      MulAtLeast(p, -q);
      NegProduct(p, q);
      assert p * q <= -p;
      MulNonpositive(p - 1, q + 1);
      assert (p - 1) * (q + 1) == p * q + p - q - 1 by { Expand(p, q); }
    }
  }

  lemma MulNonpositive(u: int, t: int)
    requires u >= 0 && t <= 0
    ensures u * t <= 0
  {
  }

  lemma Expand(p: int, q: int)
    ensures (p - 1) * (q + 1) == p * q + p - q - 1
  {
  }

  /** Shifting the doubled value right by `count` and then by one more halves the shift of the value. */
  lemma DivDouble(a: int, p: int)
    requires p >= 1
    ensures ((2 * a) / p) / 2 == a / p
  {
    var q, r := a / p, a % p;
    assert a == p * q + r;
    var m := (2 * a) / p;
    // 2a = p * (2q) + 2r, with 2r < 2p
    if 2 * r < p {
      DivUnique(2 * a, p, 2 * q, 2 * r);
      DivUnique(m, 2, q, 0);
    } else {
      DivUnique(2 * a, p, 2 * q + 1, 2 * r - p);
      DivUnique(m, 2, q, 1);
    }
  }

  /** Clearing the tag of a wrapped value is clearing the low bit of the value. */
  lemma ClearTagToWord(m: int)
    requires -HALF <= m < HALF
    ensures ClearTag(ToWord(m)) == ToWord(m - m % 2)
  {
    if m < 0 {
      ToWordShift(m, 1);
      ToWordShift(m - m % 2, 1);
      assert ToWord(m) == m + WORD;
    }
  }

  /** `IsShortLshiftOverflow`: shifting back does not recover the operand. */
  predicate IsShortLshiftOverflow(shortInt: int, shift: nat) {
    Signed(ToWord(shortInt * Pow2(shift))) / Pow2(shift) != shortInt
  }

  /**
   * `CPyTagged_Lshift`: a short shifted by a short count below 64 stays in
   * place exactly when the shifted value still fits a short.
   */
  function Lshift(left: Word, right: Word): (r: Outcome)
    ensures r.Fast? <==> (CheckShort(left) && CheckShort(right) && 0 <= Value(right) < INT_BITS
                          && InTaggedRange(Value(left) * Pow2(Value(right))))
    ensures r.Fast? ==> (CheckShort(r.result) && Value(r.result) == Value(left) * Pow2(Value(right)))
  {
    if CheckShort(left) && CheckShort(right) && Signed(right) >= 0 && right < INT_BITS * 2 then
      var shift := ShortAsSsize(right);
      LshiftFast(left, shift);
      if !IsShortLshiftOverflow(Signed(left), shift) then Fast(ToWord(left * Pow2(shift))) else SlowPath
    else
      if CheckShort(right) then ShortDecode(right); SlowPath else SlowPath
  }

  lemma LshiftFast(left: Word, s: nat)
    requires CheckShort(left) && s < INT_BITS
    ensures !IsShortLshiftOverflow(Signed(left), s) <==> InTaggedRange(Value(left) * Pow2(s))
    ensures InTaggedRange(Value(left) * Pow2(s)) ==>
              CheckShort(ToWord(left * Pow2(s))) && Value(ToWord(left * Pow2(s))) == Value(left) * Pow2(s)
  {
    ShortDecode(left);
    var a, p := Value(left), Pow2(s);
    var v := p * (2 * a);
    ShiftProducts(left, p, a);
    if InTaggedRange(a * p) {
      SignedToWord(v);
      DivUnique(v, p, 2 * a, 0);
      ShortRoundTrip(a * p);
    } else {
      LshiftOverflow(v, a, s);
    }
  }

  lemma ShiftProducts(left: Word, p: int, a: int)
    requires Signed(left) == 2 * a
    ensures Signed(left) * p == p * (2 * a) == 2 * (a * p)
    ensures ToWord(left * p) == ToWord(p * (2 * a))
  {
    ToWordSignedProduct(p, left);
    NegProduct(p, left);
  }

  /** A shifted value that left the signed range does not shift back to its operand. */
  lemma LshiftOverflow(v: int, a: int, s: nat)
    requires s < INT_BITS && v == Pow2(s) * (2 * a) && !(-HALF <= v < HALF)
    ensures Signed(ToWord(v)) / Pow2(s) != 2 * a
  {
    var p := Pow2(s);
    var j := WrapOffset(v);
    Pow2Values();
    Pow2Add(s, INT_BITS - s);
    var k := Pow2(INT_BITS - s);
    assert Signed(ToWord(v)) == p * (2 * a + j * k) by {
      Distribute(p, 2 * a, j, k);
    }
    DivUnique(Signed(ToWord(v)), p, 2 * a + j * k, 0);
    NonzeroProduct(j, k);
  }

  /** Wrapping to a signed word moves a value by a multiple of 2^64, and only a value out of range. */
  lemma WrapOffset(v: int) returns (j: int)
    ensures Signed(ToWord(v)) == v + j * WORD
    ensures j == 0 <==> -HALF <= v < HALF
  {
    j := if ToWord(v) < HALF then -(v / WORD) else -(v / WORD) - 1;
  }

  lemma Distribute(p: int, x: int, j: int, k: int)
    ensures p * x + j * (p * k) == p * (x + j * k)
  {
  }

  lemma NonzeroProduct(j: int, k: int)
    requires j != 0 && k != 0
    ensures j * k != 0
  {
  }

  // ---------------------------------------------------------------------------
  // Comparisons

  /** The outcome of an inline comparison: decided in place, or by the slow path. */
  datatype Comparison = Decided(holds: bool) | SlowCompare

  /** `CPyTagged_IsEq`: a short left operand equals the right one exactly when it has the same value. */
  function IsEq(left: Word, right: Word): (c: Comparison)
    ensures c.Decided? <==> CheckShort(left)
    ensures c.Decided? ==> (c.holds <==> CheckShort(right) && Value(left) == Value(right))
  {
    if CheckShort(left) then
      if CheckShort(right) then CompareShorts(left, right); Decided(left == right)
      else Decided(left == right)
    else SlowCompare
  }

  /** `CPyTagged_IsNe`. */
  function IsNe(left: Word, right: Word): (c: Comparison)
    ensures c.Decided? <==> CheckShort(left)
    ensures c.Decided? ==> (c.holds <==> !(CheckShort(right) && Value(left) == Value(right)))
  {
    if CheckShort(left) then
      if CheckShort(right) then CompareShorts(left, right); Decided(left != right)
      else Decided(left != right)
    else SlowCompare
  }

  /** `CPyTagged_IsLt`: two shorts compare as signed words. */
  function IsLt(left: Word, right: Word): (c: Comparison)
    ensures c.Decided? <==> (CheckShort(left) && CheckShort(right))
    ensures c.Decided? ==> (c.holds <==> Value(left) < Value(right))
  {
    if CheckShort(left) && CheckShort(right) then
      CompareShorts(left, right);
      Decided(Signed(left) < Signed(right))
    else SlowCompare
  }

  /** `CPyTagged_IsGe`. */
  function IsGe(left: Word, right: Word): (c: Comparison)
    ensures c.Decided? <==> (CheckShort(left) && CheckShort(right))
    ensures c.Decided? ==> (c.holds <==> Value(left) >= Value(right))
  {
    if CheckShort(left) && CheckShort(right) then
      CompareShorts(left, right);
      Decided(Signed(left) >= Signed(right))
    else SlowCompare
  }

  /** `CPyTagged_IsGt`. */
  function IsGt(left: Word, right: Word): (c: Comparison)
    ensures c.Decided? <==> (CheckShort(left) && CheckShort(right))
    ensures c.Decided? ==> (c.holds <==> Value(left) > Value(right))
  {
    if CheckShort(left) && CheckShort(right) then
      CompareShorts(right, left);
      Decided(Signed(left) > Signed(right))
    else SlowCompare
  }

  /** `CPyTagged_IsLe`. */
  function IsLe(left: Word, right: Word): (c: Comparison)
    ensures c.Decided? <==> (CheckShort(left) && CheckShort(right))
    ensures c.Decided? ==> (c.holds <==> Value(left) <= Value(right))
  {
    if CheckShort(left) && CheckShort(right) then
      CompareShorts(right, left);
      Decided(Signed(left) <= Signed(right))
    else SlowCompare
  }
}
