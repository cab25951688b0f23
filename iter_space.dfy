/** Index spaces of tensor shapes.

    `mutate(shape, f)` and the loop nest of a `compute` visit the index tuples
    of a shape in row-major (lexicographic) order: the first dimension is the
    outermost loop.  `Box(shape)` is that visiting order. */
module IterSpace {

  /** The number of elements of a tensor of the given shape. */
  function Product(shape: seq<nat>): nat
  {
    if shape == [] then 1 else shape[0] * Product(shape[1..])
  }

  /** Index tuple `t` lies inside the shape. */
  predicate InBox(t: seq<nat>, shape: seq<nat>)
  {
    |t| == |shape| && forall d :: 0 <= d < |t| ==> t[d] < shape[d]
  }

  /** `n` copies of `ts`, the a-th copy with `a` prepended to every tuple. */
  function Layers(n: nat, ts: seq<seq<nat>>): (r: seq<seq<nat>>)
    ensures |r| == n * |ts|
  {
    if n == 0 then []
    else Layers(n - 1, ts) + seq(|ts|, k requires 0 <= k < |ts| => [n - 1] + ts[k])
  }

  /** The index tuples of `shape` in the order nested loops visit them. */
  function Box(shape: seq<nat>): (r: seq<seq<nat>>)
    ensures |r| == Product(shape)
  {
    if shape == [] then [[]] else Layers(shape[0], Box(shape[1..]))
  }

  /** The row-major position of an index tuple. */
  function Rank(t: seq<nat>, shape: seq<nat>): nat
    requires |t| == |shape|
  {
    if shape == [] then 0 else t[0] * Product(shape[1..]) + Rank(t[1..], shape[1..])
  }

  // ---------------------------------------------------------------------

  lemma MulStep(a: nat, n: nat, m: nat, b: nat)
    requires a < n && b < m
    ensures a * m + b < n * m
  {
    assert a * m + b < (a + 1) * m;
    assert (a + 1) * m <= n * m;
  }

  /** Position `a * |ts| + b` of `Layers(n, ts)` is `[a] + ts[b]`. */
  lemma {:induction false} LayersAt(n: nat, ts: seq<seq<nat>>, a: nat, b: nat)
    requires a < n && b < |ts|
    ensures a * |ts| + b < |Layers(n, ts)|
    ensures Layers(n, ts)[a * |ts| + b] == [a] + ts[b]
  {
    MulStep(a, n, |ts|, b);
    if a < n - 1 {
      LayersAt(n - 1, ts, a, b);
    } else {
      assert a * |ts| == |Layers(n - 1, ts)|;
    }
  }

  lemma DivModSplit(p: nat, m: nat)
    requires m > 0
    ensures p == (p / m) * m + p % m && p % m < m
  {
  }

  lemma DivBelow(p: nat, n: nat, m: nat)
    requires m > 0 && p < n * m
    ensures p / m < n
  {
  }

  lemma PositiveFactor(n: nat, m: nat, p: nat)
    requires p < n * m
    ensures m > 0
  {
  }

  /** Position p of `Layers(n, ts)` is `[p / |ts|] + ts[p % |ts|]`. */
  lemma LayersSplit(n: nat, ts: seq<seq<nat>>, p: nat)
    requires p < n * |ts|
    ensures |ts| > 0
    ensures Layers(n, ts)[p] == [p / |ts|] + ts[p % |ts|]
  {
    var m := |ts|;
    PositiveFactor(n, m, p);
    DivModSplit(p, m);
    DivBelow(p, n, m);
    LayersAt(n, ts, p / m, p % m);
  }

  /** Position p of `Box(shape)` starts with `p / Product(rest)` and continues
      with position `p % Product(rest)` of the box of the remaining dims. */
  lemma BoxAt(shape: seq<nat>, p: nat)
    requires shape != [] && p < |Box(shape)|
    ensures Product(shape[1..]) > 0
    ensures Box(shape)[p] == [p / Product(shape[1..])] + Box(shape[1..])[p % Product(shape[1..])]
  {
    LayersSplit(shape[0], Box(shape[1..]), p);
  }

  /** Every visited tuple lies in the shape. */
  lemma {:induction false} BoxInBox(shape: seq<nat>, p: nat)
    requires p < |Box(shape)|
    ensures InBox(Box(shape)[p], shape)
  {
    if shape != [] {
      var m := Product(shape[1..]);
      BoxAt(shape, p);
      DivBelow(p, shape[0], m);
      BoxInBox(shape[1..], p % m);
    }
  }

  /** Every tuple of the shape is visited, at its row-major position. */
  lemma {:induction false} BoxAtRank(t: seq<nat>, shape: seq<nat>)
    requires InBox(t, shape)
    ensures Rank(t, shape) < |Box(shape)|
    ensures Box(shape)[Rank(t, shape)] == t
  {
    if shape != [] {
      var m := Product(shape[1..]);
      assert InBox(t[1..], shape[1..]);
      BoxAtRank(t[1..], shape[1..]);
      var r := Rank(t[1..], shape[1..]);
      LayersAt(shape[0], Box(shape[1..]), t[0], r);
      assert t == [t[0]] + t[1..];
    }
  }

  /** Each position holds a different tuple: the tuple at position p has rank p. */
  lemma {:induction false} RankOfBox(shape: seq<nat>, p: nat)
    requires p < |Box(shape)|
    ensures |Box(shape)[p]| == |shape|
    ensures Rank(Box(shape)[p], shape) == p
  {
    BoxInBox(shape, p);
    if shape != [] {
      var m := Product(shape[1..]);
      BoxAt(shape, p);
      DivModSplit(p, m);
      RankOfBox(shape[1..], p % m);
      assert Box(shape)[p][1..] == Box(shape[1..])[p % m];
    }
  }

  /** `mutate(shape, f)` calls f on exactly the index tuples of the shape. */
  lemma BoxMember(t: seq<nat>, shape: seq<nat>)
    ensures t in Box(shape) <==> InBox(t, shape)
  {
    if t in Box(shape) {
      var p :| 0 <= p < |Box(shape)| && Box(shape)[p] == t;
      BoxInBox(shape, p);
    }
    if InBox(t, shape) {
      BoxAtRank(t, shape);
    }
  }

  /** ... and on each of them once. */
  lemma BoxDistinct(shape: seq<nat>, p: nat, q: nat)
    requires p < q < |Box(shape)|
    ensures Box(shape)[p] != Box(shape)[q]
  {
    RankOfBox(shape, p);
    RankOfBox(shape, q);
  }
}
