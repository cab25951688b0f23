/** Imperative loops: `for_`, `while_` and `mutate`.

    `for_(lo, hi, step)` iterates its index over Python's `range(lo, hi, step)`:
    upwards while below `hi` for a positive step, downwards while above `hi` for
    a negative one.  The bounds may be expressions of enclosing loop indices.
    `while_(cond)` re-evaluates its condition before every iteration, and
    `mutate(shape, f)` runs f over every index tuple of the shape. */
module Loops {
  import opened IterSpace

  /** The index continues for another iteration. */
  predicate Continues(i: int, hi: int, step: int)
  {
    (step > 0 && i < hi) || (step < 0 && i > hi)
  }

  function Distance(i: int, hi: int, step: int): nat
  {
    if step > 0 then (if i < hi then hi - i else 0)
    else if i > hi then i - hi else 0
  }

  /** The values `for_(lo, hi, step)` gives its index, in order. */
  function Range(lo: int, hi: int, step: int): seq<int>
    requires step != 0
    decreases Distance(lo, hi, step)
  {
    if Continues(lo, hi, step) then [lo] + Range(lo + step, hi, step) else []
  }

  lemma StepShift(lo: int, step: int, k: int)
    ensures (lo + step) + (k - 1) * step == lo + k * step
  {
  }

  /** Range agrees with Python's `range`: the k-th value is `lo + k * step`,
      every value taken is short of `hi`, and the first value not taken is the
      first that reaches `hi`. */
  lemma {:induction false} RangeAt(lo: int, hi: int, step: int)
    requires step != 0
    ensures forall k :: 0 <= k < |Range(lo, hi, step)| ==>
      Range(lo, hi, step)[k] == lo + k * step && Continues(Range(lo, hi, step)[k], hi, step)
    ensures !Continues(lo + |Range(lo, hi, step)| * step, hi, step)
    decreases Distance(lo, hi, step)
  {
    var r := Range(lo, hi, step);
    if Continues(lo, hi, step) {
      var rest := Range(lo + step, hi, step);
      RangeAt(lo + step, hi, step);
      assert r == [lo] + rest;
      forall k | 0 < k < |r|
        ensures r[k] == lo + k * step
      {
        assert r[k] == rest[k - 1];
        StepShift(lo, step, k);
      }
      StepShift(lo, step, |r|);
    }
  }

  /** A unit-step range from lo to hi has `hi - lo` values (none when empty). */
  lemma RangeLength(lo: int, hi: int, step: int)
    requires step == 1 || step == -1
    ensures |Range(lo, hi, step)| == if step == 1 then Distance(lo, hi, 1) else Distance(lo, hi, -1)
  {
    var r := Range(lo, hi, step);
    RangeAt(lo, hi, step);
    if |r| > 0 {
      assert Continues(r[|r| - 1], hi, step);
    }
  }

  function Reversed(s: seq<int>): (r: seq<int>)
  {
    seq(|s|, k requires 0 <= k < |s| => s[|s| - 1 - k])
  }

  /** `for_(hi - 1, lo - 1, -1)` visits the indices of `for_(lo, hi)` in
      reverse order. */
  lemma DescendingRange(lo: int, hi: int)
    ensures Range(hi - 1, lo - 1, -1) == Reversed(Range(lo, hi, 1))
  {
    var up, down := Range(lo, hi, 1), Range(hi - 1, lo - 1, -1);
    RangeLength(lo, hi, 1);
    RangeLength(hi - 1, lo - 1, -1);
    RangeAt(lo, hi, 1);
    RangeAt(hi - 1, lo - 1, -1);
    assert |down| == |up|;
    forall k | 0 <= k < |up|
      ensures down[k] == Reversed(up)[k]
    {
    }
  }

  /** The ranges the kernels of the loop tests iterate over. */
  lemma ConcreteRanges()
    ensures Range(0, 10, 1) == [0, 1, 2, 3, 4, 5, 6, 7, 8, 9]
    ensures Range(4, 8, 1) == [4, 5, 6, 7]
    ensures Range(0, 10, 2) == [0, 2, 4, 6, 8]
    ensures Range(9, -1, -1) == [9, 8, 7, 6, 5, 4, 3, 2, 1, 0]
  {
    UpToTen();
    EvenUpToTen();
    DownFromNine();
  }

  lemma UpToTen()
    ensures Range(0, 10, 1) == [0, 1, 2, 3, 4, 5, 6, 7, 8, 9]
  {
  }

  lemma EvenUpToTen()
    ensures Range(0, 10, 2) == [0, 2, 4, 6, 8]
  {
  }

  lemma DownFromNine()
    ensures Range(9, -1, -1) == [9, 8, 7, 6, 5, 4, 3, 2, 1, 0]
  {
  }

  // ---------------------------------------------------------------------
  // Kernels

  /** `with for_(lo, hi, step) as i: A[i] = i`: the visited elements hold their
      own index, every other element keeps its value. */
  method ForStoreIndex(A: array<int>, lo: int, hi: int, step: int)
    requires step != 0
    requires forall i :: i in Range(lo, hi, step) ==> 0 <= i < A.Length
    modifies A
    ensures forall j :: 0 <= j < A.Length ==>
      A[j] == if j in Range(lo, hi, step) then j else old(A[j])
  {
    var i := lo;
    ghost var done: seq<int> := [];
    while Continues(i, hi, step)
      invariant Range(lo, hi, step) == done + Range(i, hi, step)
      invariant forall j :: 0 <= j < A.Length ==> A[j] == if j in done then j else old(A[j])
      decreases Distance(i, hi, step)
    {
      assert i in Range(lo, hi, step);
      A[i] := i;
      done := done + [i];
      i := i + step;
    }
  }

  /** `0 + 1 + ... + (m - 1)`. */
  function SumBelow(m: nat): nat
  {
    if m == 0 then 0 else SumBelow(m - 1) + (m - 1)
  }

  /** The sum of the first m indices in closed form. */
  lemma {:induction false} SumBelowClosed(m: nat)
    ensures 2 * SumBelow(m) == m * (m - 1)
  {
    if m > 0 {
      SumBelowClosed(m - 1);
      assert (m - 1) * (m - 2) + 2 * (m - 1) == m * (m - 1);
    }
  }

  /** A value of the default element type `Int(32)`. */
  predicate IsInt32(x: int)
  {
    -0x8000_0000 <= x < 0x8000_0000
  }

  /** The `Int(32)` result of an addition whose exact value is `x`: two's
      complement wrap-around modulo 2^32. */
  function Wrap32(x: int): (r: int)
    ensures IsInt32(r)
  {
    (x + 0x8000_0000) % 0x1_0000_0000 - 0x8000_0000
  }

  /** Wrapping is the only Int(32) value congruent to `x` modulo 2^32, and
      an Int(32) value wraps to itself. */
  lemma Wrap32Unique(x: int, r: int)
    requires IsInt32(r) && (r - x) % 0x1_0000_0000 == 0
    ensures Wrap32(x) == r
  {
    var q := (r - x) / 0x1_0000_0000;
    assert x + 0x8000_0000 == (r + 0x8000_0000) - q * 0x1_0000_0000;
  }

  /** Wrapping after every addition equals wrapping once at the end. */
  lemma Wrap32Add(x: int, y: int)
    ensures Wrap32(Wrap32(x) + y) == Wrap32(x + y)
  {
    var q := (x + 0x8000_0000) / 0x1_0000_0000;
    assert Wrap32(x) + y == (x + y) - q * 0x1_0000_0000;
    Wrap32Unique(Wrap32(x) + y, Wrap32(x + y));
  }

  /** `for_(0, n) as i: for_(i, n) as j: A[j] += i` on `Int(32)` elements:
      element j gains every outer index up to and including j, modulo 2^32. */
  method ForTriangle(A: array<int>)
    requires forall j :: 0 <= j < A.Length ==> IsInt32(A[j])
    modifies A
    ensures forall j :: 0 <= j < A.Length ==> A[j] == Wrap32(old(A[j]) + SumBelow(j + 1))
    ensures forall j :: 0 <= j < A.Length ==> A[j] == Wrap32(old(A[j]) + (j + 1) * j / 2)
  {
    var n := A.Length;
    ghost var O := A[..];
    forall j | 0 <= j < n
      ensures A[j] == Wrap32(O[j] + SumBelow(0))
    {
      Wrap32Unique(O[j] + SumBelow(0), O[j]);
    }
    for i := 0 to n
      invariant forall j :: 0 <= j < n ==> A[j] == Wrap32(O[j] + SumBelow(if j < i then j + 1 else i))
    {
      ghost var before := A[..];
      AddFrom(A, i);
      TriangleRound(O, before, A[..], i);
    }
    forall j | 0 <= j < n
      ensures A[j] == Wrap32(old(A[j]) + (j + 1) * j / 2)
    {
      TriangleClosed(O[j], j);
    }
  }

  /** After round i every element k <= i holds its final sum and every later
      element has gained 0 + ... + i. */
  lemma TriangleRound(O: seq<int>, before: seq<int>, after: seq<int>, i: nat)
    requires |before| == |after| == |O|
    requires forall k :: 0 <= k < |O| ==> before[k] == Wrap32(O[k] + SumBelow(if k < i then k + 1 else i))
    requires forall k :: 0 <= k < |O| ==> after[k] == if k < i then before[k] else Wrap32(before[k] + i)
    ensures forall k :: 0 <= k < |O| ==> after[k] == Wrap32(O[k] + SumBelow(if k < i + 1 then k + 1 else i + 1))
  {
    forall k | i <= k < |O|
      ensures after[k] == Wrap32(O[k] + SumBelow(if k < i + 1 then k + 1 else i + 1))
    {
      TriangleStep(O[k], SumBelow(i), i);
    }
  }

  lemma TriangleClosed(o: int, j: nat)
    ensures Wrap32(o + SumBelow(j + 1)) == Wrap32(o + (j + 1) * j / 2)
  {
    SumBelowClosed(j + 1);
  }

  /** The inner loop `for_(i, n) as j: A[j] += i`. */
  method AddFrom(A: array<int>, i: nat)
    modifies A
    ensures forall k :: 0 <= k < A.Length ==> A[k] == if k < i then old(A[k]) else Wrap32(old(A[k]) + i)
  {
    var j := i;
    while j < A.Length
      invariant i <= j
      invariant forall k :: 0 <= k < A.Length ==> A[k] == if k < i || j <= k then old(A[k]) else Wrap32(old(A[k]) + i)
    {
      A[j] := Wrap32(A[j] + i);
      j := j + 1;
    }
  }

  /** One addition of the inner loop. */
  lemma TriangleStep(o: int, s: int, i: nat)
    ensures Wrap32(Wrap32(o + s) + i) == Wrap32(o + (s + i))
  {
    Wrap32Add(o + s, i);
    assert o + s + i == o + (s + i);
  }

  /** With the test's ten zero-initialised elements no addition wraps:
      element j ends at 0 + 1 + ... + j. */
  lemma TriangleFitsInt32(j: nat)
    requires j < 10
    ensures Wrap32(0 + SumBelow(j + 1)) == SumBelow(j + 1) <= 45
  {
    SumBelowBound(j + 1, 10);
    SumBelowClosed(10);
    Wrap32Unique(SumBelow(j + 1), SumBelow(j + 1));
  }

  lemma {:induction false} SumBelowBound(m: nat, n: nat)
    requires m <= n
    ensures SumBelow(m) <= SumBelow(n)
    decreases n
  {
    if m < n {
      SumBelowBound(m, n - 1);
    }
  }

  /** `a = scalar(0); while_(a[0] < n): A[a[0]] = a[0]; a[0] += 1`: the first
      n elements hold their index, the rest keep their value, and the counter
      ends at n. */
  method WhileFill(A: array<int>, n: nat) returns (a: nat)
    requires n <= A.Length
    modifies A
    ensures a == n
    ensures forall j :: 0 <= j < A.Length ==> A[j] == if j < n then j else old(A[j])
  {
    a := 0;
    while a < n
      invariant a <= n
      invariant forall j :: 0 <= j < A.Length ==> A[j] == if j < a then j else old(A[j])
    {
      A[a] := a;
      a := a + 1;
    }
  }

  /** `mutate(z.shape, do)` with `do(i, j, k): z[i][j][k] = i + j + k`. */
  method MutateIndexSum(z: array3<int>)
    modifies z
    ensures forall i, j, k :: 0 <= i < z.Length0 && 0 <= j < z.Length1 && 0 <= k < z.Length2 ==>
      z[i, j, k] == i + j + k
  {
    for i := 0 to z.Length0
      invariant forall i', j, k :: 0 <= i' < i && 0 <= j < z.Length1 && 0 <= k < z.Length2 ==>
        z[i', j, k] == i' + j + k
    {
      for j := 0 to z.Length1
        invariant forall i', j', k :: 0 <= i' < i && 0 <= j' < z.Length1 && 0 <= k < z.Length2 ==>
          z[i', j', k] == i' + j' + k
        invariant forall j', k :: 0 <= j' < j && 0 <= k < z.Length2 ==> z[i, j', k] == i + j' + k
      {
        for k := 0 to z.Length2
          invariant forall i', j', k' :: 0 <= i' < i && 0 <= j' < z.Length1 && 0 <= k' < z.Length2 ==>
            z[i', j', k'] == i' + j' + k'
          invariant forall j', k' :: 0 <= j' < j && 0 <= k' < z.Length2 ==> z[i, j', k'] == i + j' + k'
          invariant forall k' :: 0 <= k' < k ==> z[i, j, k'] == i + j + k'
        {
          z[i, j, k] := i + j + k;
        }
      }
    }
  }

  /** The order `mutate((d0, d1, d2), f)` calls f in: row-major, each index
      tuple of the shape once. */
  lemma MutateVisitsEachOnce(d0: nat, d1: nat, d2: nat, t: seq<nat>)
    ensures |Box([d0, d1, d2])| == d0 * (d1 * d2)
    ensures t in Box([d0, d1, d2]) <==> |t| == 3 && t[0] < d0 && t[1] < d1 && t[2] < d2
    ensures forall p, q :: 0 <= p < q < |Box([d0, d1, d2])| ==> Box([d0, d1, d2])[p] != Box([d0, d1, d2])[q]
  {
    var shape := [d0, d1, d2];
    assert shape[1..] == [d1, d2] && shape[1..][1..] == [d2] && shape[1..][1..][1..] == [];
    assert Product([d2]) == d2 * Product([]) == d2;
    assert Product([d1, d2]) == d1 * d2;
    assert Product(shape) == d0 * (d1 * d2);
    BoxMember(t, shape);
    forall p, q | 0 <= p < q < |Box(shape)|
      ensures Box(shape)[p] != Box(shape)[q]
    {
      BoxDistinct(shape, p, q);
    }
  }

  /** The flat position `i * n1 * n2 + j * n2 + k` of element (i, j, k) of a
      tensor with inner dimensions n1 and n2. */
  function Flat(i: nat, j: nat, k: nat, n1: nat, n2: nat): nat
  {
    i * n1 * n2 + j * n2 + k
  }

  lemma FlatRow(i: nat, j: nat, k: nat, n1: nat, n2: nat)
    ensures Flat(i, j, k, n1, n2) == (i * n1 + j) * n2 + k
  {
    assert (i * n1 + j) * n2 == i * n1 * n2 + j * n2;
  }

  /** Positions grow with the row-major order of the index tuples. */
  lemma FlatBefore(i': nat, j': nat, k': nat, i: nat, j: nat, k: nat, n1: nat, n2: nat)
    requires j' < n1 && k' < n2
    requires i' < i || (i' == i && j' < j) || (i' == i && j' == j && k' < k)
    ensures Flat(i', j', k', n1, n2) < Flat(i, j, k, n1, n2)
  {
    FlatRow(i', j', k', n1, n2);
    FlatRow(i, j, k, n1, n2);
    var r', r := i' * n1 + j', i * n1 + j;
    if i' < i {
      MulStep(i', i, n1, j');
    }
    if r' < r {
      MulStep(r', r, n2, k');
    }
  }

  /** Every element before (i, j, k) in row-major order has a smaller
      position. */
  lemma FlatAllBefore(i: nat, j: nat, k: nat, n1: nat, n2: nat)
    requires j < n1
    ensures forall i', j', k' :: 0 <= i' < i && 0 <= j' < n1 && 0 <= k' < n2 ==>
      Flat(i', j', k', n1, n2) < Flat(i, j, k, n1, n2)
    ensures forall j', k' :: 0 <= j' < j && 0 <= k' < n2 ==>
      Flat(i, j', k', n1, n2) < Flat(i, j, k, n1, n2)
    ensures forall k' :: 0 <= k' < k ==> Flat(i, j, k', n1, n2) < Flat(i, j, k, n1, n2)
  {
    forall i', j', k' | 0 <= i' < i && 0 <= j' < n1 && 0 <= k' < n2
      ensures Flat(i', j', k', n1, n2) < Flat(i, j, k, n1, n2)
    {
      FlatBefore(i', j', k', i, j, k, n1, n2);
    }
    forall j', k' | 0 <= j' < j && 0 <= k' < n2
      ensures Flat(i, j', k', n1, n2) < Flat(i, j, k, n1, n2)
    {
      FlatBefore(i, j', k', i, j, k, n1, n2);
    }
  }

  lemma FlatWithin(i: nat, j: nat, k: nat, n0: nat, n1: nat, n2: nat)
    requires i < n0 && j < n1 && k < n2
    ensures Flat(i, j, k, n1, n2) < n0 * n1 * n2
  {
    FlatRow(i, j, k, n1, n2);
    MulStep(i, n0, n1, j);
    MulStep(i * n1 + j, n0 * n1, n2, k);
  }

  lemma FlatCarry(i: nat, j: nat, n1: nat, n2: nat)
    ensures Flat(i, j, n2, n1, n2) == Flat(i, j + 1, 0, n1, n2)
    ensures Flat(i, n1, 0, n1, n2) == Flat(i + 1, 0, 0, n1, n2)
  {
    assert (j + 1) * n2 == j * n2 + n2;
    assert (i + 1) * n1 * n2 == i * n1 * n2 + n1 * n2;
  }

  /** `mutate(A.shape, do)` with `do(i, j, k): B[i * n1 * n2 + j * n2 + k] =
      A[i][j][x]`: B receives A's column x in row-major order; B beyond the
      element count of A keeps its values. */
  method MutateGather(A: array3<int>, B: array<int>, x: nat)
    requires x < A.Length2
    requires A.Length0 * A.Length1 * A.Length2 <= B.Length
    modifies B
    ensures forall i, j, k :: 0 <= i < A.Length0 && 0 <= j < A.Length1 && 0 <= k < A.Length2 ==>
      Flat(i, j, k, A.Length1, A.Length2) < B.Length && B[Flat(i, j, k, A.Length1, A.Length2)] == A[i, j, x]
    ensures forall p :: A.Length0 * A.Length1 * A.Length2 <= p < B.Length ==> B[p] == old(B[p])
  {
    var n0, n1, n2 := A.Length0, A.Length1, A.Length2;
    for i := 0 to n0
      invariant forall i', j', k' :: 0 <= i' < i && 0 <= j' < n1 && 0 <= k' < n2 ==>
        Flat(i', j', k', n1, n2) < B.Length && B[Flat(i', j', k', n1, n2)] == A[i', j', x]
      invariant forall p :: Flat(i, 0, 0, n1, n2) <= p < B.Length ==> B[p] == old(B[p])
    {
      for j := 0 to n1
        invariant forall i', j', k' :: 0 <= i' < i && 0 <= j' < n1 && 0 <= k' < n2 ==>
          Flat(i', j', k', n1, n2) < B.Length && B[Flat(i', j', k', n1, n2)] == A[i', j', x]
        invariant forall j', k' :: 0 <= j' < j && 0 <= k' < n2 ==>
          Flat(i, j', k', n1, n2) < B.Length && B[Flat(i, j', k', n1, n2)] == A[i, j', x]
        invariant forall p :: Flat(i, j, 0, n1, n2) <= p < B.Length ==> B[p] == old(B[p])
      {
        for k := 0 to n2
          invariant forall i', j', k' :: 0 <= i' < i && 0 <= j' < n1 && 0 <= k' < n2 ==>
            Flat(i', j', k', n1, n2) < B.Length && B[Flat(i', j', k', n1, n2)] == A[i', j', x]
          invariant forall j', k' :: 0 <= j' < j && 0 <= k' < n2 ==>
            Flat(i, j', k', n1, n2) < B.Length && B[Flat(i, j', k', n1, n2)] == A[i, j', x]
          invariant forall k' :: 0 <= k' < k ==>
            Flat(i, j, k', n1, n2) < B.Length && B[Flat(i, j, k', n1, n2)] == A[i, j, x]
          invariant forall p :: Flat(i, j, k, n1, n2) <= p < B.Length ==> B[p] == old(B[p])
        {
          var f := Flat(i, j, k, n1, n2);
          FlatWithin(i, j, k, n0, n1, n2);
          FlatAllBefore(i, j, k, n1, n2);
          B[f] := A[i, j, x];
        }
        FlatCarry(i, j, n1, n2);
      }
      FlatCarry(i, 0, n1, n2);
      if n1 == 0 {
        assert Flat(i + 1, 0, 0, n1, n2) == Flat(i, 0, 0, n1, n2);
      } else {
        assert Flat(i, n1, 0, n1, n2) == Flat(i + 1, 0, 0, n1, n2) by { FlatCarry(i, n1 - 1, n1, n2); }
      }
    }
    assert Flat(n0, 0, 0, n1, n2) == n0 * n1 * n2;
  }

  /** `mutate(z.shape, do)` where every call of `do` stores `w` into
      `z[0][0][0]`: that element ends as w, every other keeps its value. */
  method MutateFirstElement(z: array3<int>, w: int)
    modifies z
    ensures forall i, j, k :: 0 <= i < z.Length0 && 0 <= j < z.Length1 && 0 <= k < z.Length2 ==>
      z[i, j, k] == if i == 0 && j == 0 && k == 0 then w else old(z[i, j, k])
  {
    for i := 0 to z.Length0
      invariant forall i', j', k' :: 0 <= i' < z.Length0 && 0 <= j' < z.Length1 && 0 <= k' < z.Length2 ==>
        z[i', j', k'] == if i' == 0 && j' == 0 && k' == 0 && i > 0 then w else old(z[i', j', k'])
    {
      for j := 0 to z.Length1
        invariant forall i', j', k' :: 0 <= i' < z.Length0 && 0 <= j' < z.Length1 && 0 <= k' < z.Length2 ==>
          z[i', j', k'] == if i' == 0 && j' == 0 && k' == 0 && (i > 0 || j > 0) then w else old(z[i', j', k'])
      {
        for k := 0 to z.Length2
          invariant forall i', j', k' :: 0 <= i' < z.Length0 && 0 <= j' < z.Length1 && 0 <= k' < z.Length2 ==>
            z[i', j', k'] == if i' == 0 && j' == 0 && k' == 0 && (i > 0 || j > 0 || k > 0) then w else old(z[i', j', k'])
        {
          z[0, 0, 0] := w;
        }
      }
    }
  }
}
