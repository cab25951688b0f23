/** Fixed-width integer values and the DSL's bit and slice accessors.

    A value of a w-bit integer type is its bit pattern: a natural number below
    2^w (a signed value is its two's complement pattern).  The accessors are
    defined on the least-significant-bit-first view given by ToBits/FromBits;
    the lemmas connect them with the shift-and-mask arithmetic the tests use as
    golden values. */
module BitValue {

  /** 2^n. */
  function Pow2(n: nat): (r: nat)
    ensures r >= 1
  {
    if n == 0 then 1 else 2 * Pow2(n - 1)
  }

  function Max(a: nat, b: nat): nat
  {
    if a < b then b else a
  }

  function Min(a: int, b: int): int
  {
    if a < b then a else b
  }

  /** The low `w` bits of `v`, least significant first. */
  function ToBits(v: nat, w: nat): (b: seq<bool>)
    ensures |b| == w
  {
    if w == 0 then [] else [v % 2 == 1] + ToBits(v / 2, w - 1)
  }

  /** The number whose binary digits, least significant first, are `b`. */
  function FromBits(b: seq<bool>): (v: nat)
    ensures v < Pow2(|b|)
  {
    if b == [] then 0 else (if b[0] then 1 else 0) + 2 * FromBits(b[1..])
  }

  /** The bits of `b` in the opposite order. */
  function Rev(b: seq<bool>): (r: seq<bool>)
    ensures |r| == |b|
  {
    if b == [] then [] else Rev(b[1..]) + [b[0]]
  }

  /** `v[lo:hi]`: bits [lo, hi) of `v` as an unsigned value of width hi - lo. */
  function GetSlice(v: nat, lo: nat, hi: nat): (r: nat)
    requires lo <= hi
    ensures r < Pow2(hi - lo)
  {
    FromBits(ToBits(v, hi)[lo..])
  }

  /** `v[i]`: bit `i` of `v` (0 is the least significant) as a 1-bit value. */
  function GetBit(v: nat, i: nat): (r: nat)
    ensures r < 2
  {
    GetSlice(v, i, i + 1)
  }

  /** `v[lo:hi] = a` on a w-bit storage cell holding `v`: bits [lo, hi) are
      replaced by the low hi - lo bits of `a`, all other bits are kept. */
  function SetSlice(v: nat, w: nat, lo: nat, hi: nat, a: nat): (r: nat)
    requires lo <= hi <= w
    ensures r < Pow2(w)
  {
    var b := ToBits(v, w);
    FromBits(b[..lo] + ToBits(a, hi - lo) + b[hi..])
  }

  /** `v[i] = a` on a w-bit storage cell holding `v`. */
  function SetBit(v: nat, w: nat, i: nat, a: nat): (r: nat)
    requires i < w
    ensures r < Pow2(w)
  {
    SetSlice(v, w, i, i + 1, a)
  }

  /** `.reverse()` on a w-bit value: bit k moves to position w - 1 - k. */
  function Reverse(v: nat, w: nat): (r: nat)
    ensures r < Pow2(w)
  {
    FromBits(Rev(ToBits(v, w)))
  }

  // ---------------------------------------------------------------------
  // Arithmetic helpers

  lemma MulAtLeast(k: nat, d: nat)
    requires k >= 1
    ensures k * d >= d
  {
    if k > 1 {
      MulAtLeast(k - 1, d);
      assert k * d == (k - 1) * d + d;
    }
  }

  lemma DivModUnique(v: nat, d: nat, q: nat, r: nat)
    requires d > 0 && r < d && v == q * d + r
    ensures v / d == q && v % d == r
  {
    var q', r' := v / d, v % d;
    assert (q - q') * d == r' - r;
    if q > q' {
      MulAtLeast(q - q', d);
    } else if q < q' {
      MulAtLeast(q' - q, d);
    }
  }

  lemma DivDiv(v: nat, a: nat, b: nat)
    requires a > 0 && b > 0
    ensures (v / a) / b == v / (a * b)
  {
    var h, t := v / a, v % a;
    var q, s := h / b, h % b;
    Nested(v, a, h, t, b, q, s);
    FieldBelow(a, b, s, t);
    DivModUnique(v, a * b, q, a * s + t);
  }

  lemma Nested(v: int, a: int, h: int, t: int, b: int, q: int, s: int)
    requires v == a * h + t && h == b * q + s
    ensures v == q * (a * b) + (a * s + t)
  {
    calc {
      a * h;
      a * (b * q + s);
      a * (b * q) + a * s;
      q * (a * b) + a * s;
    }
  }

  lemma FieldBelow(a: nat, b: nat, s: nat, t: nat)
    requires s < b && t < a
    ensures a * s + t < a * b
  {
    MulLeft(a, s + 1, b);
  }

  lemma MulLeft(a: nat, x: nat, y: nat)
    requires x <= y
    ensures a * x <= a * y
  {
  }

  lemma Pow2Add(m: nat, n: nat)
    ensures Pow2(m + n) == Pow2(m) * Pow2(n)
  {
    if m > 0 {
      Pow2Add(m - 1, n);
    }
  }

  lemma {:induction false} Pow2Monotone(m: nat, n: nat)
    requires m <= n
    ensures Pow2(m) <= Pow2(n)
  {
    if m < n {
      Pow2Monotone(m, n - 1);
    }
  }

  lemma ModSmall(v: nat, d: nat)
    requires v < d
    ensures v % d == v
  {
    DivModUnique(v, d, 0, v);
  }

  lemma ModMod(v: nat, k: nat, p: nat)
    requires k > 0 && p > 0
    ensures (v % (k * p)) % p == v % p
  {
    var q, r := v / (k * p), v % (k * p);
    var q2, r2 := r / p, r % p;
    DivModSplit(v, k * p);
    DivModSplit(r, p);
    Regroup(v, k, p, q, r, q2, r2);
    MulNonNegative(k, q);
    DivModUnique(v, p, k * q + q2, r2);
  }

  lemma MulNonNegative(a: nat, b: nat)
    ensures a * b >= 0
  {
  }

  lemma DivModSplit(v: nat, d: nat)
    requires d > 0
    ensures v == d * (v / d) + v % d && v % d < d
  {
  }

  lemma Regroup(v: int, k: int, p: int, q: int, r: int, q2: int, r2: int)
    requires v == (k * p) * q + r && r == p * q2 + r2
    ensures v == (k * q + q2) * p + r2
  {
    calc {
      v;
      (k * p) * q + (p * q2 + r2);
      { assert (k * p) * q == (k * q) * p; assert p * q2 == q2 * p; }
      (k * q) * p + q2 * p + r2;
      (k * q + q2) * p + r2;
    }
  }

  lemma ModDouble(v: nat, m: nat)
    requires m > 0
    ensures v % (2 * m) == 2 * ((v / 2) % m) + v % 2
  {
    var h := v / 2;
    var s := h % m;
    var q := h / m;
    var bit := v % 2;
    assert h == m * q + s;
    assert v == 2 * h + bit;
    assert v == (2 * m) * q + (2 * s + bit);
    DivModUnique(v, 2 * m, q, 2 * s + bit);
  }

  lemma ModOfMod(v: nat, m: nat, n: nat)
    requires n <= m
    ensures (v % Pow2(m)) % Pow2(n) == v % Pow2(n)
  {
    Pow2Add(m - n, n);
    ModMod(v, Pow2(m - n), Pow2(n));
  }

  // ---------------------------------------------------------------------
  // The bit-sequence view

  lemma {:induction false} FromToBits(v: nat, w: nat)
    ensures FromBits(ToBits(v, w)) == v % Pow2(w)
  {
    if w > 0 {
      FromToBits(v / 2, w - 1);
      assert ToBits(v, w) == [v % 2 == 1] + ToBits(v / 2, w - 1);
      ModDouble(v, Pow2(w - 1));
    }
  }

  lemma {:induction false} ToFromBits(b: seq<bool>)
    ensures ToBits(FromBits(b), |b|) == b
  {
    if b != [] {
      ToFromBits(b[1..]);
      var t := FromBits(b[1..]);
      var r := if b[0] then 1 else 0;
      DivModUnique(FromBits(b), 2, t, r);
      assert ToBits(FromBits(b), |b|) == [b[0]] + b[1..];
    }
  }

  lemma ShiftAppend(r: int, a: int, c: int, p: int)
    ensures r + 2 * (a + p * c) == (r + 2 * a) + (2 * p) * c
  {
  }

  lemma {:induction false} FromBitsAppend(x: seq<bool>, y: seq<bool>)
    ensures FromBits(x + y) == FromBits(x) + Pow2(|x|) * FromBits(y)
  {
    if x == [] {
      assert x + y == y;
    } else {
      FromBitsAppend(x[1..], y);
      assert (x + y)[0] == x[0] && (x + y)[1..] == x[1..] + y;
      var r := if x[0] then 1 else 0;
      ShiftAppend(r, FromBits(x[1..]), FromBits(y), Pow2(|x| - 1));
    }
  }

  lemma {:induction false} ToBitsPrefix(v: nat, w: nat, n: nat)
    requires n <= w
    ensures ToBits(v, w)[..n] == ToBits(v, n)
  {
    if n > 0 {
      ToBitsPrefix(v / 2, w - 1, n - 1);
      assert ToBits(v, w)[..n] == [v % 2 == 1] + ToBits(v / 2, w - 1)[..n - 1];
    }
  }

  lemma {:induction false} ToBitsDrop(v: nat, w: nat, lo: nat)
    requires lo <= w
    ensures ToBits(v, w)[lo..] == ToBits(v / Pow2(lo), w - lo)
  {
    if lo > 0 {
      ToBitsDrop(v / 2, w - 1, lo - 1);
      assert ToBits(v, w)[lo..] == ToBits(v / 2, w - 1)[lo - 1..];
      DivDiv(v, 2, Pow2(lo - 1));
    }
  }

  /** Bit k of a value read through its w-bit view, for any k below w. */
  lemma GetBitAt(v: nat, w: nat, k: nat)
    requires k < w
    ensures GetBit(v, k) == if ToBits(v, w)[k] then 1 else 0
  {
    ToBitsPrefix(v, w, k + 1);
    assert ToBits(v, k + 1)[k..] == [ToBits(v, w)[k]];
  }

  /** Bit k of the value whose bits are `b` is `b[k]`. */
  lemma BitOfBits(b: seq<bool>, k: nat)
    requires k < |b|
    ensures GetBit(FromBits(b), k) == if b[k] then 1 else 0
  {
    GetBitAt(FromBits(b), |b|, k);
    ToFromBits(b);
  }

  /** Equal bits in two views give equal single-bit reads. */
  lemma SameBit(x: nat, wx: nat, i: nat, y: nat, wy: nat, j: nat)
    requires i < wx && j < wy && ToBits(x, wx)[i] == ToBits(y, wy)[j]
    ensures GetBit(x, i) == GetBit(y, j)
  {
    GetBitAt(x, wx, i);
    GetBitAt(y, wy, j);
  }

  /** Two w-bit values with the same bits are equal. */
  lemma BitsDetermineValue(u: nat, v: nat, w: nat)
    requires u < Pow2(w) && v < Pow2(w)
    requires forall k :: 0 <= k < w ==> GetBit(u, k) == GetBit(v, k)
    ensures u == v
  {
    forall k | 0 <= k < w
      ensures ToBits(u, w)[k] == ToBits(v, w)[k]
    {
      GetBitAt(u, w, k);
      GetBitAt(v, w, k);
    }
    assert ToBits(u, w) == ToBits(v, w);
    FromToBits(u, w);
    FromToBits(v, w);
    ModSmall(u, Pow2(w));
    ModSmall(v, Pow2(w));
  }

  // ---------------------------------------------------------------------
  // Reading bits and slices

  /** `v[lo:hi]` is `(v >> lo) & (2^(hi-lo) - 1)`. */
  lemma SliceIsShiftAndMask(v: nat, lo: nat, hi: nat)
    requires lo <= hi
    ensures GetSlice(v, lo, hi) == (v / Pow2(lo)) % Pow2(hi - lo)
  {
    ToBitsDrop(v, hi, lo);
    FromToBits(v / Pow2(lo), hi - lo);
  }

  /** `v[i]` is `(v >> i) & 1`. */
  lemma BitIsShiftAndOne(v: nat, i: nat)
    ensures GetBit(v, i) == (v / Pow2(i)) % 2
  {
    SliceIsShiftAndMask(v, i, i + 1);
  }

  /** Bit j of the slice `v[lo:hi]` is bit lo + j of `v`. */
  lemma SliceBits(v: nat, lo: nat, hi: nat, j: nat)
    requires lo <= hi && j < hi - lo
    ensures GetBit(GetSlice(v, lo, hi), j) == GetBit(v, lo + j)
  {
    var b := ToBits(v, hi)[lo..];
    assert GetSlice(v, lo, hi) == FromBits(b);
    BitOfBits(b, j);
    assert b[j] == ToBits(v, hi)[lo + j];
    GetBitAt(v, hi, lo + j);
  }

  // ---------------------------------------------------------------------
  // Writing bits and slices

  lemma SetSliceLayout(v: nat, w: nat, lo: nat, hi: nat, a: nat)
    requires lo <= hi <= w
    ensures ToBits(SetSlice(v, w, lo, hi, a), w)
         == ToBits(v, w)[..lo] + ToBits(a, hi - lo) + ToBits(v, w)[hi..]
  {
    var b := ToBits(v, w);
    ToFromBits(b[..lo] + ToBits(a, hi - lo) + b[hi..]);
  }

  /** Writing `v[lo:hi] = a` replaces exactly bits [lo, hi) with the low bits
      of `a` and leaves every other bit of the w-bit cell unchanged. */
  lemma SetSliceBits(v: nat, w: nat, lo: nat, hi: nat, a: nat, k: nat)
    requires lo <= hi <= w && k < w
    ensures GetBit(SetSlice(v, w, lo, hi, a), k)
         == if lo <= k < hi then GetBit(a, k - lo) else GetBit(v, k)
  {
    if lo <= k < hi {
      WrittenBit(v, w, lo, hi, a, k);
    } else {
      KeptBit(v, w, lo, hi, a, k);
    }
  }

  lemma WrittenBit(v: nat, w: nat, lo: nat, hi: nat, a: nat, k: nat)
    requires lo <= k < hi <= w
    ensures GetBit(SetSlice(v, w, lo, hi, a), k) == GetBit(a, k - lo)
  {
    WrittenBitSeq(v, w, lo, hi, a, k);
    SameBit(SetSlice(v, w, lo, hi, a), w, k, a, hi - lo, k - lo);
  }

  lemma WrittenBitSeq(v: nat, w: nat, lo: nat, hi: nat, a: nat, k: nat)
    requires lo <= k < hi <= w
    ensures ToBits(SetSlice(v, w, lo, hi, a), w)[k] == ToBits(a, hi - lo)[k - lo]
  {
    SetSliceLayout(v, w, lo, hi, a);
    SpliceInside(ToBits(v, w), ToBits(a, hi - lo), lo, hi, k);
  }

  lemma KeptBit(v: nat, w: nat, lo: nat, hi: nat, a: nat, k: nat)
    requires lo <= hi <= w && k < w && !(lo <= k < hi)
    ensures GetBit(SetSlice(v, w, lo, hi, a), k) == GetBit(v, k)
  {
    KeptBitSeq(v, w, lo, hi, a, k);
    SameBit(SetSlice(v, w, lo, hi, a), w, k, v, w, k);
  }

  lemma KeptBitSeq(v: nat, w: nat, lo: nat, hi: nat, a: nat, k: nat)
    requires lo <= hi <= w && k < w && !(lo <= k < hi)
    ensures ToBits(SetSlice(v, w, lo, hi, a), w)[k] == ToBits(v, w)[k]
  {
    SetSliceLayout(v, w, lo, hi, a);
    SpliceOutside(ToBits(v, w), ToBits(a, hi - lo), lo, hi, k);
  }

  lemma SpliceInside(b: seq<bool>, t: seq<bool>, lo: nat, hi: nat, k: nat)
    requires lo <= k < hi <= |b| && |t| == hi - lo
    ensures (b[..lo] + t + b[hi..])[k] == t[k - lo]
  {
  }

  lemma SpliceOutside(b: seq<bool>, t: seq<bool>, lo: nat, hi: nat, k: nat)
    requires lo <= hi <= |b| && |t| == hi - lo && k < |b| && !(lo <= k < hi)
    ensures (b[..lo] + t + b[hi..])[k] == b[k]
  {
  }

  lemma FromBits3(p: seq<bool>, m: seq<bool>, s: seq<bool>)
    ensures FromBits(p + m + s)
         == FromBits(p) + Pow2(|p|) * FromBits(m) + Pow2(|p| + |m|) * FromBits(s)
  {
    FromBitsAppend(p + m, s);
    FromBitsAppend(p, m);
  }

  lemma ReplaceField(r: int, v: int, low: int, old_: int, new_: int, high: int, k: int, K: int)
    requires v == low + k * old_ + K * high
    requires r == low + k * new_ + K * high
    ensures r == v - old_ * k + new_ * k
  {
  }

  /** The mask form of a slice write: `(v & ~mask) | ((a & m) << lo)`, written
      as "remove the old field, add the new one". */
  lemma SetSliceArith(v: nat, w: nat, lo: nat, hi: nat, a: nat)
    requires lo <= hi <= w
    ensures SetSlice(v, w, lo, hi, a)
         == v % Pow2(w) - GetSlice(v, lo, hi) * Pow2(lo) + (a % Pow2(hi - lo)) * Pow2(lo)
  {
    var b, t := ToBits(v, w), ToBits(a, hi - lo);
    var p, m, s := b[..lo], b[lo..hi], b[hi..];
    assert b == p + m + s;
    assert SetSlice(v, w, lo, hi, a) == FromBits(p + t + s);
    ToBitsPrefix(v, w, hi);
    assert m == ToBits(v, hi)[lo..];
    assert GetSlice(v, lo, hi) == FromBits(m);
    FromToBits(v, w);
    FromToBits(a, hi - lo);
    SwapField(p, m, t, s);
  }

  /** Exchanging the middle field of a bit pattern for one of equal length
      removes the old field's weight and adds the new one's. */
  lemma SwapField(p: seq<bool>, m: seq<bool>, t: seq<bool>, s: seq<bool>)
    requires |m| == |t|
    ensures FromBits(p + t + s)
         == FromBits(p + m + s) - FromBits(m) * Pow2(|p|) + FromBits(t) * Pow2(|p|)
  {
    FromBits3(p, m, s);
    FromBits3(p, t, s);
    ReplaceField(FromBits(p + t + s), FromBits(p + m + s), FromBits(p), FromBits(m), FromBits(t), FromBits(s),
                 Pow2(|p|), Pow2(|p| + |m|));
  }

  /** Reading back a written slice gives the written value, truncated. */
  lemma GetSetSlice(v: nat, w: nat, lo: nat, hi: nat, a: nat)
    requires lo <= hi <= w
    ensures GetSlice(SetSlice(v, w, lo, hi, a), lo, hi) == a % Pow2(hi - lo)
  {
    var r := SetSlice(v, w, lo, hi, a);
    SetSliceLayout(v, w, lo, hi, a);
    ToBitsPrefix(r, w, hi);
    assert ToBits(r, hi)[lo..] == ToBits(r, w)[lo..hi];
    FromToBits(a, hi - lo);
  }

  /** Writing a slice's own value back leaves the cell unchanged. */
  lemma SetGetSlice(v: nat, w: nat, lo: nat, hi: nat)
    requires lo <= hi <= w
    ensures SetSlice(v, w, lo, hi, GetSlice(v, lo, hi)) == v % Pow2(w)
  {
    var b := ToBits(v, w);
    SliceAsBits(v, w, lo, hi);
    SpliceWhole(b, lo, hi);
    assert SetSlice(v, w, lo, hi, GetSlice(v, lo, hi)) == FromBits(b);
    FromToBits(v, w);
  }

  /** The bits of `v[lo:hi]` are bits [lo, hi) of `v`. */
  lemma SliceAsBits(v: nat, w: nat, lo: nat, hi: nat)
    requires lo <= hi <= w
    ensures ToBits(GetSlice(v, lo, hi), hi - lo) == ToBits(v, w)[lo..hi]
  {
    var m := ToBits(v, w)[lo..hi];
    ToBitsPrefix(v, w, hi);
    assert m == ToBits(v, hi)[lo..];
    ToFromBits(m);
  }

  lemma SpliceWhole(b: seq<bool>, lo: nat, hi: nat)
    requires lo <= hi <= |b|
    ensures b[..lo] + b[lo..hi] + b[hi..] == b
  {
  }

  /** Writing the whole width `[0:w]` stores the written value. */
  lemma SetFullSlice(v: nat, w: nat, a: nat)
    ensures SetSlice(v, w, 0, w, a) == a % Pow2(w)
  {
    var b := ToBits(v, w);
    assert b[..0] + ToBits(a, w) + b[w..] == ToBits(a, w);
    FromToBits(a, w);
  }

  /** Bit write in mask form: `(v & ~(1 << i)) | ((a & 1) << i)`. */
  lemma SetBitArith(v: nat, w: nat, i: nat, a: nat)
    requires i < w
    ensures SetBit(v, w, i, a) == v % Pow2(w) - GetBit(v, i) * Pow2(i) + (a % 2) * Pow2(i)
  {
    SetSliceArith(v, w, i, i + 1, a);
  }

  // ---------------------------------------------------------------------
  // Bit reversal

  lemma {:induction false} RevAt(b: seq<bool>, k: nat)
    requires k < |b|
    ensures Rev(b)[k] == b[|b| - 1 - k]
  {
    if k < |b| - 1 {
      RevAt(b[1..], k);
    }
  }

  lemma RevRev(b: seq<bool>)
    ensures Rev(Rev(b)) == b
  {
    forall k | 0 <= k < |b|
      ensures Rev(Rev(b))[k] == b[k]
    {
      RevAt(Rev(b), k);
      RevAt(b, |b| - 1 - k);
    }
  }

  /** Bit k of `v.reverse()` is bit w - 1 - k of `v`. */
  lemma ReverseBits(v: nat, w: nat, k: nat)
    requires k < w
    ensures GetBit(Reverse(v, w), k) == GetBit(v, w - 1 - k)
  {
    var b := ToBits(v, w);
    assert Reverse(v, w) == FromBits(Rev(b));
    BitOfBits(Rev(b), k);
    RevAt(b, k);
    GetBitAt(v, w, w - 1 - k);
  }

  /** Reversing twice gives back the w-bit value. */
  lemma ReverseReverse(v: nat, w: nat)
    ensures Reverse(Reverse(v, w), w) == v % Pow2(w)
  {
    var b := ToBits(v, w);
    ToFromBits(Rev(b));
    RevRev(b);
    FromToBits(v, w);
  }

  /** `v[lo:hi].reverse()` reverses only that sub-range: its bit k is bit
      hi - 1 - k of `v`. */
  lemma ReverseSliceBits(v: nat, lo: nat, hi: nat, k: nat)
    requires lo <= hi && k < hi - lo
    ensures GetBit(Reverse(GetSlice(v, lo, hi), hi - lo), k) == GetBit(v, hi - 1 - k)
  {
    var j := hi - lo - 1 - k;
    SliceBitsAt(v, lo, hi, j, hi - 1 - k);
    ReverseBitsAt(GetSlice(v, lo, hi), hi - lo, k, j);
  }

  lemma ReverseBitsAt(v: nat, w: nat, k: nat, j: nat)
    requires k < w && j == w - 1 - k
    ensures GetBit(Reverse(v, w), k) == GetBit(v, j)
  {
    ReverseBits(v, w, k);
  }

  lemma SliceBitsAt(v: nat, lo: nat, hi: nat, j: nat, i: nat)
    requires lo <= hi && j < hi - lo && i == lo + j
    ensures GetBit(GetSlice(v, lo, hi), j) == GetBit(v, i)
  {
    SliceBits(v, lo, hi, j);
  }
}
