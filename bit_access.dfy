/** Bit and slice access inside traced kernels.

    A kernel body works on one element of a tensor at a time.  Its expressions
    read that element (`A[x]`), add, and take bits, slices and reversals of any
    sub-expression; a read of `e[i]` or `e[lo:hi]` evaluates the whole of `e`
    first.  A bit or slice assignment `t[lo:hi] = v` writes into storage only
    when `t` is the tensor element itself; when `t` is any other expression
    (such as `B[i] + 1`) the write goes to a temporary and is lost. */
module BitAccess {
  import opened BitValue

  /** The expressions of a kernel body over one tensor element. */
  datatype Expr =
    | Elem                              // the tensor element, `A[x]`
    | Const(c: int)                     // a constant of the element type
    | Add(l: Expr, r: Expr)             // `l + r`
    | Bit(e: Expr, i: nat)              // `e[i]`
    | Slice(e: Expr, lo: nat, hi: nat)  // `e[lo:hi]`
    | Reversed(e: Expr)                 // `e.reverse()`

  /** Whether the value of `e` is signed when the element type's signedness
      is `sgn`: bits and slices are unsigned, a sum is signed when either
      operand is, a reversal keeps the signedness of its operand. */
  function Signed(e: Expr, sgn: bool): bool
  {
    match e
    case Elem => sgn
    case Const(_) => sgn
    case Add(l, r) => Signed(l, sgn) || Signed(r, sgn)
    case Bit(_, _) => false
    case Slice(_, _, _) => false
    case Reversed(x) => Signed(x, sgn)
  }

  /** The bit width of an expression whose element type is `w` bits wide.  A
      sum is one bit wider than its wider operand, an unsigned operand of a
      signed sum counting one bit more for its sign, so a sum cannot
      overflow. */
  function Width(e: Expr, w: nat, sgn: bool): nat
  {
    match e
    case Elem => w
    case Const(_) => w
    case Add(l, r) =>
      var m, n := Width(l, w, sgn), Width(r, w, sgn);
      if Signed(l, sgn) || Signed(r, sgn)
      then Max(if Signed(l, sgn) then m else m + 1, if Signed(r, sgn) then n else n + 1) + 1
      else Max(m, n) + 1
    case Bit(_, _) => 1
    case Slice(_, lo, hi) => if lo <= hi then hi - lo else 0
    case Reversed(x) => Width(x, w, sgn)
  }

  /** The width `e` takes as an operand of a signed sum. */
  function SignedWidth(e: Expr, w: nat, sgn: bool): nat
  {
    if Signed(e, sgn) then Width(e, w, sgn) else Width(e, w, sgn) + 1
  }

  /** Every bit index and slice range lies inside the width of the value it
      indexes; anything else is a width error raised while tracing. */
  predicate WellFormed(e: Expr, w: nat, sgn: bool)
  {
    match e
    case Elem => true
    case Const(_) => true
    case Add(l, r) => WellFormed(l, w, sgn) && WellFormed(r, w, sgn)
    case Bit(x, i) => WellFormed(x, w, sgn) && i < Width(x, w, sgn)
    case Slice(x, lo, hi) => WellFormed(x, w, sgn) && lo <= hi <= Width(x, w, sgn)
    case Reversed(x) => WellFormed(x, w, sgn)
  }

  /** The integer an n-bit pattern stands for: itself when unsigned, its two's
      complement reading when signed. */
  function Value(v: nat, n: nat, sgn: bool): int
  {
    if sgn && n > 0 && v >= Pow2(n - 1) then v - Pow2(n) else v
  }

  /** `x` is representable as a signed value of m bits. */
  predicate FitsSigned(x: int, m: nat)
  {
    -(Pow2(m) as int) <= 2 * x < Pow2(m)
  }

  lemma SumFits(x: nat, y: nat, m: nat, n: nat)
    requires x < Pow2(m) && y < Pow2(n)
    ensures x + y < Pow2(Max(m, n) + 1)
  {
    Pow2Monotone(m, Max(m, n));
    Pow2Monotone(n, Max(m, n));
  }

  /** The value of `e` for the element value `a`, as a bit pattern of the
      expression's own width.  A sum adds the integers its operands stand
      for, a signed operand being sign-extended. */
  function Eval(e: Expr, a: nat, w: nat, sgn: bool): (r: nat)
    requires WellFormed(e, w, sgn)
    ensures r < Pow2(Width(e, w, sgn))
  {
    match e
    case Elem => a % Pow2(w)
    case Const(c) => c % Pow2(w)
    case Add(l, r) =>
      var x := Value(Eval(l, a, w, sgn), Width(l, w, sgn), Signed(l, sgn));
      var y := Value(Eval(r, a, w, sgn), Width(r, w, sgn), Signed(r, sgn));
      (x + y) % Pow2(Width(e, w, sgn))
    case Bit(x, i) => GetBit(Eval(x, a, w, sgn), i)
    case Slice(x, lo, hi) => GetSlice(Eval(x, a, w, sgn), lo, hi)
    case Reversed(x) => Reverse(Eval(x, a, w, sgn), Width(x, w, sgn))
  }

  // ---------------------------------------------------------------------
  // Sums do not overflow

  lemma IntDivModUnique(v: int, d: nat, q: int, r: int)
    requires d > 0 && 0 <= r < d && v == q * d + r
    ensures v % d == r
  {
    var q', r' := v / d, v % d;
    assert (q - q') * d == r' - r;
    if q > q' {
      MulAtLeast(q - q', d);
    } else if q < q' {
      MulAtLeast(q' - q, d);
    }
  }

  /** An n-bit operand fits the signed width it takes in a signed sum. */
  lemma OperandFits(v: nat, n: nat, sgn: bool)
    requires v < Pow2(n)
    ensures FitsSigned(Value(v, n, sgn), if sgn then n else n + 1)
    ensures !sgn ==> Value(v, n, sgn) == v
  {
    if sgn && n > 0 {
      assert Pow2(n) == 2 * Pow2(n - 1);
    }
  }

  lemma Widen(x: int, m: nat, k: nat)
    requires FitsSigned(x, m) && m <= k
    ensures FitsSigned(x, k)
  {
    Pow2Monotone(m, k);
  }

  /** A signed sum that fits its width reads back as itself. */
  lemma SignedRoundTrip(s: int, n: nat)
    requires 0 < n && FitsSigned(s, n)
    ensures Value(s % Pow2(n), n, true) == s
  {
    var p := Pow2(n);
    assert p == 2 * Pow2(n - 1);
    if s >= 0 {
      IntDivModUnique(s, p, 0, s);
    } else {
      IntDivModUnique(s, p, -1, s + p);
    }
  }

  /** A sum is exact: the integer its pattern stands for is the sum of the
      integers its operands stand for, signed or not. */
  lemma SumExact(l: Expr, r: Expr, a: nat, w: nat, sgn: bool)
    requires WellFormed(Add(l, r), w, sgn)
    ensures Value(Eval(Add(l, r), a, w, sgn), Width(Add(l, r), w, sgn), Signed(Add(l, r), sgn))
         == Value(Eval(l, a, w, sgn), Width(l, w, sgn), Signed(l, sgn))
          + Value(Eval(r, a, w, sgn), Width(r, w, sgn), Signed(r, sgn))
  {
    AddWidth(l, r, w, sgn);
    AddEval(l, r, a, w, sgn);
    assert Signed(Add(l, r), sgn) == (Signed(l, sgn) || Signed(r, sgn));
    SumParts(Eval(Add(l, r), a, w, sgn), Eval(l, a, w, sgn), Eval(r, a, w, sgn),
             Width(l, w, sgn), Width(r, w, sgn), Signed(l, sgn), Signed(r, sgn), Width(Add(l, r), w, sgn));
  }

  /** The arithmetic of SumExact, on the operands' patterns. */
  lemma SumParts(e: nat, u: nat, v: nat, m: nat, n: nat, sl: bool, sr: bool, W: nat)
    requires u < Pow2(m) && v < Pow2(n)
    requires W == if sl || sr then Max(if sl then m else m + 1, if sr then n else n + 1) + 1 else Max(m, n) + 1
    requires e == (Value(u, m, sl) + Value(v, n, sr)) % Pow2(W)
    ensures Value(e, W, sl || sr) == Value(u, m, sl) + Value(v, n, sr)
  {
    OperandFits(u, m, sl);
    OperandFits(v, n, sr);
    if sl || sr {
      SignedSum(Value(u, m, sl), Value(v, n, sr), if sl then m else m + 1, if sr then n else n + 1, W);
    } else {
      UnsignedSum(u, v, m, n, W);
    }
  }

  /** One step of Width on a sum. */
  lemma AddWidth(l: Expr, r: Expr, w: nat, sgn: bool)
    ensures Width(Add(l, r), w, sgn)
         == if Signed(l, sgn) || Signed(r, sgn)
            then Max(SignedWidth(l, w, sgn), SignedWidth(r, w, sgn)) + 1
            else Max(Width(l, w, sgn), Width(r, w, sgn)) + 1
  {
  }

  /** One step of Eval on a sum. */
  lemma AddEval(l: Expr, r: Expr, a: nat, w: nat, sgn: bool)
    requires WellFormed(Add(l, r), w, sgn)
    ensures Eval(Add(l, r), a, w, sgn)
         == (Value(Eval(l, a, w, sgn), Width(l, w, sgn), Signed(l, sgn))
           + Value(Eval(r, a, w, sgn), Width(r, w, sgn), Signed(r, sgn))) % Pow2(Width(Add(l, r), w, sgn))
  {
  }

  lemma SignedSum(x: int, y: int, m: nat, n: nat, W: nat)
    requires FitsSigned(x, m) && FitsSigned(y, n) && W == Max(m, n) + 1
    ensures Value((x + y) % Pow2(W), W, true) == x + y
  {
    Widen(x, m, W - 1);
    Widen(y, n, W - 1);
    assert Pow2(W) == 2 * Pow2(W - 1);
    SignedRoundTrip(x + y, W);
  }

  lemma UnsignedSum(u: nat, v: nat, m: nat, n: nat, W: nat)
    requires u < Pow2(m) && v < Pow2(n) && W == Max(m, n) + 1
    ensures Value((u + v) % Pow2(W), W, false) == u + v
  {
    SumFits(u, v, m, n);
    IntDivModUnique(u + v, Pow2(W), 0, u + v);
  }

  /** Patterns congruent modulo 2^m agree in their low n <= m bits. */
  lemma LowBitsAgree(x: int, y: int, m: nat, n: nat)
    requires n <= m && (x - y) % Pow2(m) == 0
    ensures x % Pow2(n) == y % Pow2(n)
  {
    Pow2Add(m - n, n);
    CommonDivisor(x, y, Pow2(m), Pow2(n), Pow2(m - n));
  }

  /** Congruence modulo P = R * Q implies congruence modulo Q. */
  lemma CommonDivisor(x: int, y: int, P: nat, Q: nat, R: nat)
    requires P > 0 && Q > 0 && P == R * Q && (x - y) % P == 0
    ensures x % Q == y % Q
  {
    var k := (x - y) / P;
    var q, r := y / Q, y % Q;
    assert x - y == k * P;
    assert y == q * Q + r;
    Regroup2(x, y, k, P, Q, R, q, r);
    IntDivModUnique(x, Q, q + k * R, r);
  }

  lemma Regroup2(x: int, y: int, k: int, P: int, Q: int, R: int, q: int, r: int)
    requires P == R * Q && x - y == k * P && y == q * Q + r
    ensures x == (q + k * R) * Q + r
  {
    calc {
      x;
      y + k * P;
      q * Q + r + k * (R * Q);
      { assert k * (R * Q) == (k * R) * Q; }
      q * Q + (k * R) * Q + r;
      (q + k * R) * Q + r;
    }
  }

  /** The integer a pattern stands for is congruent to the pattern. */
  lemma ZeroOrNegMod(d: int, p: int)
    requires p > 0 && (d == 0 || d == -p)
    ensures d % p == 0
  {
    if d != 0 {
      IntDivModUnique(d, p, -1, 0);
    }
  }

  lemma ValueCongruent(v: nat, n: nat, sgn: bool)
    ensures (Value(v, n, sgn) - v) % Pow2(n) == 0
  {
    ZeroOrNegMod(Value(v, n, sgn) - v, Pow2(n));
  }

  /** What `target[lo:hi] = value` leaves in the storage cell that `target`
      reads from. */
  function StoreSlice(cell: nat, w: nat, target: Expr, lo: nat, hi: nat, value: nat): nat
    requires lo <= hi <= w
  {
    if target.Elem? then SetSlice(cell, w, lo, hi, value) else cell
  }

  /** The checks tracing makes before a slice store is accepted. */
  predicate StoreWellFormed(value: Expr, wa: nat, sa: bool, target: Expr, wb: nat, sb: bool, lo: nat, hi: nat)
  {
    WellFormed(value, wa, sa) && WellFormed(target, wb, sb) && lo <= hi <= Width(target, wb, sb) && hi <= wb
  }

  // ---------------------------------------------------------------------
  // Kernels

  /** `for_(0, n) as i: target[lo:hi] = value`, where `target` is built from
      `B[i]` and `value` from `A[i]`; `mutate((n,), ...)` over the same body
      lowers to the same loop.  A width error aborts tracing and leaves `B`
      untouched; a target that is not `B[i]` itself leaves `B` untouched. */
  method StoreSliceLoop(A: array<nat>, wa: nat, sa: bool, value: Expr,
                        B: array<nat>, wb: nat, sb: bool, target: Expr, lo: nat, hi: nat)
    returns (ok: bool)
    requires A.Length == B.Length
    modifies B
    ensures ok == StoreWellFormed(value, wa, sa, target, wb, sb, lo, hi)
    ensures !ok || !target.Elem? ==> B[..] == old(B[..])
    ensures ok ==> forall i :: 0 <= i < B.Length ==>
      B[i] == StoreSlice(old(B[i]), wb, target, lo, hi, Eval(value, old(A[i]), wa, sa))
  {
    ok := StoreWellFormed(value, wa, sa, target, wb, sb, lo, hi);
    if !ok {
      return;
    }
    var i := 0;
    while i < B.Length
      invariant 0 <= i <= B.Length
      invariant forall j :: i <= j < B.Length ==> A[j] == old(A[j]) && B[j] == old(B[j])
      invariant forall j :: 0 <= j < i ==>
        B[j] == StoreSlice(old(B[j]), wb, target, lo, hi, Eval(value, old(A[j]), wa, sa))
    {
      var v := Eval(value, A[i], wa, sa);
      if target.Elem? {
        B[i] := SetSlice(B[i], wb, lo, hi, v);
      }
      i := i + 1;
    }
  }

  /** Storing an n-bit value of signedness `sgn` into an element of the
      output tensor's `wo`-bit type: the integer the value stands for,
      wrapped to wo bits -- sign- or zero-extended when the element is wider,
      truncated when it is narrower.  The result is the one wo-bit pattern
      congruent to that integer. */
  function Convert(v: nat, n: nat, sgn: bool, wo: nat): (r: nat)
    ensures r < Pow2(wo)
    ensures (Value(v, n, sgn) - r) % Pow2(wo) == 0
  {
    var x := Value(v, n, sgn);
    ModDifference(x, Pow2(wo));
    x % Pow2(wo)
  }

  lemma ModDifference(x: int, p: nat)
    requires p > 0
    ensures (x - x % p) % p == 0
  {
    assert x - x % p == (x / p) * p;
    IntDivModUnique((x / p) * p, p, x / p, 0);
  }

  /** A value the output type can represent is stored exactly: the element
      reads back, at the output type's signedness, as the stored integer. */
  lemma ConvertKeepsValue(v: nat, n: nat, sgn: bool, wo: nat, so: bool)
    requires v < Pow2(n)
    requires if so then 0 < wo && FitsSigned(Value(v, n, sgn), wo) else 0 <= Value(v, n, sgn) < Pow2(wo)
    ensures Value(Convert(v, n, sgn, wo), wo, so) == Value(v, n, sgn)
  {
    var x := Value(v, n, sgn);
    if so {
      SignedRoundTrip(x, wo);
    } else {
      ModSmall(x, Pow2(wo));
    }
  }

  /** An unsigned value no wider than the output element is stored as it
      is: this covers the bits, slices and unsigned sums of the tests. */
  lemma ConvertUnsignedKeeps(v: nat, n: nat, wo: nat)
    requires v < Pow2(n) && n <= wo
    ensures Convert(v, n, false, wo) == v
  {
    Pow2Monotone(n, wo);
    ModSmall(v, Pow2(wo));
  }

  /** `compute(A.shape, lambda x: e)` into a tensor of `wo`-bit elements: a
      fresh tensor whose element x is the value of `e` at `A[x]`, converted
      to the output type, or a width error. */
  method Compute(A: array<nat>, w: nat, sgn: bool, e: Expr, wo: nat) returns (ok: bool, B: array<nat>)
    ensures fresh(B)
    ensures ok == WellFormed(e, w, sgn)
    ensures ok ==> B.Length == A.Length
    ensures ok ==> forall x :: 0 <= x < A.Length ==>
      B[x] == Convert(Eval(e, A[x], w, sgn), Width(e, w, sgn), Signed(e, sgn), wo)
  {
    ok := WellFormed(e, w, sgn);
    if !ok {
      B := new nat[0];
      return;
    }
    B := new nat[A.Length];
    for x := 0 to A.Length
      invariant forall j :: 0 <= j < x ==>
        B[j] == Convert(Eval(e, A[j], w, sgn), Width(e, w, sgn), Signed(e, sgn), wo)
    {
      B[x] := Convert(Eval(e, A[x], w, sgn), Width(e, w, sgn), Signed(e, sgn), wo);
    }
  }

  /** An unsigned expression no wider than the output element -- a bit, a
      slice, a sum of slices -- is stored as evaluated. */
  lemma ComputeUnsigned(e: Expr, a: nat, w: nat, sgn: bool, wo: nat)
    requires WellFormed(e, w, sgn) && !Signed(e, sgn) && Width(e, w, sgn) <= wo
    ensures Convert(Eval(e, a, w, sgn), Width(e, w, sgn), false, wo) == Eval(e, a, w, sgn)
  {
    ConvertUnsignedKeeps(Eval(e, a, w, sgn), Width(e, w, sgn), wo);
  }

  /** `A[x] + 1` over a signed w-bit tensor stored into a w-bit signed
      tensor: the element holds A[x] + 1 whenever that fits w signed bits
      (-5 + 1 is stored as -4), and wraps to the most negative value at the
      largest one. */
  lemma IncrementStored(a: nat, w: nat)
    requires 2 <= w && a < Pow2(w)
    ensures WellFormed(Add(Elem, Const(1)), w, true)
    ensures var s := Convert(Eval(Add(Elem, Const(1)), a, w, true), w + 1, true, w);
      Value(s, w, true) == if 2 * (Value(a, w, true) + 1) < Pow2(w) then Value(a, w, true) + 1
                           else -(Pow2(w - 1) as int)
  {
    var x := Value(a, w, true);
    var p: int := Pow2(w);
    IncrementSum(a, w);
    var v := Eval(Add(Elem, Const(1)), a, w, true);
    assert Value(v, w + 1, true) == x + 1;
    OperandFits(a, w, true);
    if 2 * (x + 1) < p {
      ConvertKeepsValue(v, w + 1, true, w, true);
    } else {
      IncrementWraps(v, w, x);
    }
  }

  /** The sum `A[x] + 1` reads back as a + 1 at its width. */
  lemma IncrementSum(a: nat, w: nat)
    requires 2 <= w && a < Pow2(w)
    ensures WellFormed(Add(Elem, Const(1)), w, true)
    ensures Width(Add(Elem, Const(1)), w, true) == w + 1
    ensures Eval(Add(Elem, Const(1)), a, w, true) < Pow2(w + 1)
    ensures Value(Eval(Add(Elem, Const(1)), a, w, true), w + 1, true) == Value(a, w, true) + 1
  {
    ConstSum(a, 1, w, true);
    SumExact(Elem, Const(1), a, w, true);
    OneValue(a, w);
  }

  /** Read at w signed bits, the element A[x] is `Value(a, w, true)` and the
      constant 1 is 1. */
  lemma OneValue(a: nat, w: nat)
    requires 2 <= w && a < Pow2(w)
    ensures Eval(Elem, a, w, true) == a && Eval(Const(1), a, w, true) == 1
    ensures Value(1, w, true) == 1
  {
    Pow2Monotone(1, w - 1);
    assert Pow2(1) == 2;
    assert Pow2(w) == 2 * Pow2(w - 1);
    ModSmall(a, Pow2(w));
    ModSmall(1, Pow2(w));
  }

  /** At the largest signed value, x + 1 = 2^(w-1) wraps to -2^(w-1). */
  lemma IncrementWraps(v: nat, w: nat, x: int)
    requires 2 <= w && v < Pow2(w + 1) && Value(v, w + 1, true) == x + 1
    requires FitsSigned(x, w) && Pow2(w) <= 2 * (x + 1)
    ensures Value(Convert(v, w + 1, true, w), w, true) == -(Pow2(w - 1) as int)
  {
    var h: int := Pow2(w - 1);
    assert Pow2(w) == 2 * h;
    assert x + 1 == h;
    ModSmall(h, Pow2(w));
  }

  // ---------------------------------------------------------------------
  // Properties

  /** `e[i]` evaluates all of `e` and then takes `(value >> i) & 1`. */
  lemma EvalBit(e: Expr, i: nat, a: nat, w: nat, sgn: bool)
    requires WellFormed(Bit(e, i), w, sgn)
    ensures Eval(Bit(e, i), a, w, sgn) == (Eval(e, a, w, sgn) / Pow2(i)) % 2
  {
    BitIsShiftAndOne(Eval(e, a, w, sgn), i);
  }

  /** `e[lo:hi]` evaluates all of `e` and then takes
      `(value >> lo) & (2^(hi-lo) - 1)`. */
  lemma EvalSlice(e: Expr, lo: nat, hi: nat, a: nat, w: nat, sgn: bool)
    requires WellFormed(Slice(e, lo, hi), w, sgn)
    ensures Eval(Slice(e, lo, hi), a, w, sgn) == (Eval(e, a, w, sgn) / Pow2(lo)) % Pow2(hi - lo)
  {
    SliceIsShiftAndMask(Eval(e, a, w, sgn), lo, hi);
  }

  lemma CongruentSum(x: int, a: int, y: int, c: int, p: nat)
    requires p > 0 && (x - a) % p == 0 && (y - c) % p == 0
    ensures ((x + y) - (a + c)) % p == 0
  {
    var k1, k2 := (x - a) / p, (y - c) / p;
    assert (x + y) - (a + c) == (k1 + k2) * p;
    IntDivModUnique((x + y) - (a + c), p, k1 + k2, 0);
  }

  lemma ModCongruent(v: int, p: nat)
    requires p > 0
    ensures (v % p - v) % p == 0
  {
    IntDivModUnique(v % p - v, p, -(v / p), 0);
  }

  /** The low n bits of `A[x] + c`, for n up to the element width, are those
      of the plain sum `a + c`, whatever the signedness. */
  lemma SumLowBits(a: nat, c: int, w: nat, sgn: bool, n: nat)
    requires n <= w
    ensures WellFormed(Add(Elem, Const(c)), w, sgn)
    ensures Width(Add(Elem, Const(c)), w, sgn) == w + 1
    ensures Eval(Add(Elem, Const(c)), a, w, sgn) % Pow2(n) == (a + c) % Pow2(n)
  {
    ConstSum(a, c, w, sgn);
    SumLowBitsArith(a, c, w, sgn, n);
  }

  /** `A[x] + c` is one bit wider than `A[x]`; its pattern is the sum of
      the two operands read at width w, wrapped to w + 1 bits. */
  lemma ConstSum(a: nat, c: int, w: nat, sgn: bool)
    ensures WellFormed(Add(Elem, Const(c)), w, sgn)
    ensures Width(Add(Elem, Const(c)), w, sgn) == w + 1
    ensures Eval(Add(Elem, Const(c)), a, w, sgn)
         == (Value(a % Pow2(w), w, sgn) + Value(c % Pow2(w), w, sgn)) % Pow2(w + 1)
  {
    assert Signed(Elem, sgn) == Signed(Const(c), sgn) == sgn;
    assert Width(Elem, w, sgn) == Width(Const(c), w, sgn) == w;
    AddWidth(Elem, Const(c), w, sgn);
    AddEval(Elem, Const(c), a, w, sgn);
  }

  /** The low n bits (n at most w) of that wrapped sum are those of a + c. */
  lemma SumLowBitsArith(a: nat, c: int, w: nat, sgn: bool, n: nat)
    requires n <= w
    ensures ((Value(a % Pow2(w), w, sgn) + Value(c % Pow2(w), w, sgn)) % Pow2(w + 1)) % Pow2(n) == (a + c) % Pow2(n)
  {
    var u, v := a % Pow2(w), c % Pow2(w);
    var x, y := Value(u, w, sgn), Value(v, w, sgn);
    ValueCongruent(u, w, sgn);
    ValueCongruent(v, w, sgn);
    ModCongruent(a, Pow2(w));
    ModCongruent(c, Pow2(w));
    CongruentChain(x, u, a, y, v, c, Pow2(w));
    LowBitsAgree(x + y, a + c, w, n);
    ModCongruent(x + y, Pow2(w + 1));
    LowBitsAgree((x + y) % Pow2(w + 1), x + y, w + 1, n);
  }

  /** x is congruent to u and u to a, y to v and v to c, so x + y is
      congruent to a + c. */
  lemma CongruentChain(x: int, u: int, a: int, y: int, v: int, c: int, p: nat)
    requires p > 0 && (x - u) % p == 0 && (y - v) % p == 0 && (u - a) % p == 0 && (v - c) % p == 0
    ensures ((x + y) - (a + c)) % p == 0
  {
    CongruentSum(x, u, y, v, p);
    CongruentSum(u, a, v, c, p);
    CongruentSum(x + y - (u + v), 0, u + v - (a + c), 0, p);
  }

  /** `(A[x] + 1)[0]` is `(A[x] + 1) & 1`, and `(A[x] + 1)[0:2]` is
      `(A[x] + 1) & 0b11` whenever the constant 1 is representable (any
      unsigned type, or a signed type of at least two bits): the sum is
      formed in full before its bits are taken. */
  lemma BitOfSum(a: nat, w: nat, sgn: bool)
    requires 1 <= w && a < Pow2(w)
    ensures WellFormed(Bit(Add(Elem, Const(1)), 0), w, sgn) && WellFormed(Slice(Add(Elem, Const(1)), 0, 2), w, sgn)
    ensures Eval(Bit(Add(Elem, Const(1)), 0), a, w, sgn) == (a + 1) % 2
    ensures !sgn || 2 <= w ==> Eval(Slice(Add(Elem, Const(1)), 0, 2), a, w, sgn) == (a + 1) % 4
  {
    var s := Add(Elem, Const(1));
    SumLowBits(a, 1, w, sgn, 1);
    assert Pow2(1) == 2;
    LowBit(s, a, w, sgn, a + 1);
    if 2 <= w {
      SumLowBits(a, 1, w, sgn, 2);
      assert Pow2(2) == 4;
      LowTwoBits(s, a, w, sgn, a + 1);
    } else if !sgn {
      UnsignedIncrement(a, w);
      LowTwoBits(s, a, w, sgn, a + 1);
    }
  }

  /** `e[0]` is the remainder of e's value modulo 2. */
  lemma LowBit(e: Expr, a: nat, w: nat, sgn: bool, t: int)
    requires WellFormed(Bit(e, 0), w, sgn) && Eval(e, a, w, sgn) % 2 == t % 2
    ensures Eval(Bit(e, 0), a, w, sgn) == t % 2
  {
    EvalBit(e, 0, a, w, sgn);
    assert Pow2(0) == 1;
  }

  /** `e[0:2]` is the remainder of e's value modulo 4. */
  lemma LowTwoBits(e: Expr, a: nat, w: nat, sgn: bool, t: int)
    requires WellFormed(Slice(e, 0, 2), w, sgn) && Eval(e, a, w, sgn) % 4 == t % 4
    ensures Eval(Slice(e, 0, 2), a, w, sgn) == t % 4
  {
    EvalSlice(e, 0, 2, a, w, sgn);
    assert Pow2(0) == 1 && Pow2(2) == 4;
  }

  /** On an unsigned element, `A[x] + 1` is the plain successor. */
  lemma UnsignedIncrement(a: nat, w: nat)
    requires 1 <= w && a < Pow2(w)
    ensures WellFormed(Add(Elem, Const(1)), w, false)
    ensures Eval(Add(Elem, Const(1)), a, w, false) == a + 1
  {
    Pow2Monotone(1, w);
    assert Pow2(1) == 2;
    ModSmall(a, Pow2(w));
    ModSmall(1, Pow2(w));
    SumExact(Elem, Const(1), a, w, false);
  }

  /** The widened sum's top bit is its sign for a signed element and its
      carry for an unsigned one: at the all-ones pattern, `A[x] + 1` is 0
      (-1 + 1) for a signed type of w >= 2 bits and 2^w for an unsigned one. */
  lemma AllOnesPlusOne(w: nat, m: nat)
    requires 2 <= w && m + 1 == Pow2(w)
    ensures WellFormed(Bit(Add(Elem, Const(1)), w), w, true) && WellFormed(Bit(Add(Elem, Const(1)), w), w, false)
    ensures Eval(Add(Elem, Const(1)), m, w, true) == 0
    ensures Eval(Add(Elem, Const(1)), m, w, false) == Pow2(w)
    ensures Eval(Bit(Add(Elem, Const(1)), w), m, w, true) == 0
    ensures Eval(Bit(Add(Elem, Const(1)), w), m, w, false) == 1
  {
    var e := Add(Elem, Const(1));
    AddWidth(Elem, Const(1), w, true);
    AddWidth(Elem, Const(1), w, false);
    SignedAllOnes(w, m);
    UnsignedIncrement(m, w);
    TopBit(e, m, w, true);
    TopBit(e, m, w, false);
  }

  lemma SignedAllOnes(w: nat, m: nat)
    requires 2 <= w && m + 1 == Pow2(w)
    ensures Width(Add(Elem, Const(1)), w, true) == w + 1
    ensures Eval(Add(Elem, Const(1)), m, w, true) == 0
  {
    AllOnesValue(w, m);
    AddWidth(Elem, Const(1), w, true);
    SumExact(Elem, Const(1), m, w, true);
    assert Eval(Elem, m, w, true) == m && Eval(Const(1), m, w, true) == 1;
    ValueZero(Eval(Add(Elem, Const(1)), m, w, true), w + 1);
  }

  /** The all-ones pattern stands for -1 and the constant 1 for 1. */
  lemma AllOnesValue(w: nat, m: nat)
    requires 2 <= w && m + 1 == Pow2(w)
    ensures m % Pow2(w) == m && 1 % Pow2(w) == 1
    ensures Value(m, w, true) == -1 && Value(1, w, true) == 1
  {
    Pow2Monotone(1, w - 1);
    assert Pow2(1) == 2;
    assert Pow2(w) == 2 * Pow2(w - 1);
    ModSmall(m, Pow2(w));
    ModSmall(1, Pow2(w));
  }

  lemma ValueZero(e: nat, n: nat)
    requires e < Pow2(n) && Value(e, n, true) == 0
    ensures e == 0
  {
  }

  /** Bit w of a sum of two w-bit operands is its top bit: 0 for the pattern
      0, 1 for the pattern 2^w. */
  lemma TopBit(e: Expr, a: nat, w: nat, sgn: bool)
    requires WellFormed(Bit(e, w), w, sgn)
    requires Eval(e, a, w, sgn) == 0 || Eval(e, a, w, sgn) == Pow2(w)
    ensures Eval(Bit(e, w), a, w, sgn) == if Eval(e, a, w, sgn) == 0 then 0 else 1
  {
    EvalBit(e, w, a, w, sgn);
    var v := Eval(e, a, w, sgn);
    if v == 0 {
      DivModUnique(v, Pow2(w), 0, 0);
    } else {
      DivModUnique(v, Pow2(w), 1, 0);
    }
  }

  /** `A[x][0:8] + A[x][8:16]` is `(A[x] & 0xFF) + ((A[x] >> 8) & 0xFF)`. */
  lemma SumOfSlices(a: nat, w: nat, sgn: bool)
    requires 16 <= w
    ensures WellFormed(Add(Slice(Elem, 0, 8), Slice(Elem, 8, 16)), w, sgn)
    ensures Eval(Add(Slice(Elem, 0, 8), Slice(Elem, 8, 16)), a, w, sgn)
         == (a % Pow2(w)) % 256 + ((a % Pow2(w)) / 256) % 256
  {
    var v := a % Pow2(w);
    assert Pow2(0) == 1 && Pow2(8) == 256;
    EvalSlice(Elem, 0, 8, a, w, sgn);
    EvalSlice(Elem, 8, 16, a, w, sgn);
    assert Eval(Slice(Elem, 0, 8), a, w, sgn) == v % 256;
    assert Eval(Slice(Elem, 8, 16), a, w, sgn) == (v / 256) % 256;
    SumExact(Slice(Elem, 0, 8), Slice(Elem, 8, 16), a, w, sgn);
  }

  /** Storing `a` into the low n bits of a cell replaces exactly those bits:
      `B[i][0:n] = a` is `(B[i] & ~(2^n - 1)) | a`. */
  lemma LowBitsStore(b: nat, a: nat, w: nat, n: nat)
    requires n <= w && b < Pow2(w) && a < Pow2(n)
    ensures StoreSlice(b, w, Elem, 0, n, a) == b - b % Pow2(n) + a
  {
    ModSmall(b, Pow2(w));
    ModSmall(a, Pow2(n));
    SetSliceArith(b, w, 0, n, a);
    SliceIsShiftAndMask(b, 0, n);
    assert Pow2(0) == 1;
    assert b / Pow2(0) == b;
  }

  /** `B[i][0] = A[i]` is `(B[i] & ~1) | A[i]` and `B[i][0:2] = A[i]` is
      `(B[i] & ~0b11) | A[i]`. */
  lemma LowBitStores(b: nat, a: nat, w: nat)
    requires 2 <= w && b < Pow2(w)
    ensures a < 2 ==> StoreSlice(b, w, Elem, 0, 1, a) == b - b % 2 + a
    ensures a < 4 ==> StoreSlice(b, w, Elem, 0, 2, a) == b - b % 4 + a
  {
    assert Pow2(1) == 2 && Pow2(2) == 4;
    if a < 2 {
      LowBitsStore(b, a, w, 1);
    }
    if a < 4 {
      LowBitsStore(b, a, w, 2);
    }
  }

  /** `B[i][0:8] = A[i].reverse()` on 8-bit cells makes `B[i]` the bit
      reversal of `A[i]`: bit k of the new `B[i]` is bit 7 - k of `A[i]`. */
  lemma ReversedStore(b: nat, a: nat, sgn: bool, k: nat)
    requires k < 8
    ensures StoreSlice(b, 8, Elem, 0, 8, Eval(Reversed(Elem), a, 8, sgn)) == Reverse(a % Pow2(8), 8)
    ensures GetBit(StoreSlice(b, 8, Elem, 0, 8, Eval(Reversed(Elem), a, 8, sgn)), k)
         == GetBit(a % Pow2(8), 7 - k)
  {
    var r := Reverse(a % Pow2(8), 8);
    SetFullSlice(b, 8, r);
    ModSmall(r, Pow2(8));
    ReverseBits(a % Pow2(8), 8, k);
  }
}
