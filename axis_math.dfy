/** Index arithmetic of the loop transformations.

    `split(axis, f)` turns a loop of n iterations into an outer loop of
    ceil(n / f) iterations and an inner loop whose bound is
    `min(f, n - f * outer)`, so the last outer iteration is clipped; the
    original index is `outer * f + inner`.  `fuse(a, b)` turns two adjacent
    loops of la and lb iterations into one of la * lb iterations, recovering
    `a = k / lb` and `b = k % lb`.  `reorder` exchanges nesting levels. */
module AxisMath {
  import opened IterSpace
  import BitValue

  function CeilDiv(n: nat, f: nat): nat
    requires f > 0
  {
    (n + f - 1) / f
  }

  /** The inner bound of a split loop under outer index o. */
  function InnerBound(n: nat, f: nat, o: nat): int
  {
    BitValue.Min(f, n - f * o)
  }

  lemma CeilDivBounds(n: nat, f: nat)
    requires f > 0
    ensures CeilDiv(n, f) * f >= n
    ensures CeilDiv(n, f) == 0 || (CeilDiv(n, f) - 1) * f < n
  {
    var c := CeilDiv(n, f);
    var r := (n + f - 1) % f;
    assert n + f - 1 == c * f + r && 0 <= r < f;
  }

  lemma MulLe(a: nat, b: nat, f: nat)
    requires a <= b
    ensures a * f <= b * f
  {
    assert b * f == a * f + (b - a) * f;
  }

  /** Outer index o runs exactly while `o * f < n`. */
  lemma OuterRange(n: nat, f: nat, o: nat)
    requires f > 0
    ensures o < CeilDiv(n, f) <==> o * f < n
  {
    CeilDivBounds(n, f);
    var c := CeilDiv(n, f);
    if o < c {
      MulLe(o, c - 1, f);
    } else {
      MulLe(c, o, f);
    }
  }

  /** Inner index i runs exactly while `i < f` and the original index
      `o * f + i` is below n: the clipped bound drops no index and adds none. */
  lemma InnerRange(n: nat, f: nat, o: nat, i: nat)
    ensures i < InnerBound(n, f, o) <==> i < f && o * f + i < n
  {
    assert f * o == o * f;
  }

  /** `split(10, 3)` gives an outer loop `0 to 4` whose last iteration has
      inner bound 1, not 3. */
  lemma SplitTenByThree()
    ensures CeilDiv(10, 3) == 4
    ensures InnerBound(10, 3, 0) == 3 && InnerBound(10, 3, 3) == 1
  {
  }

  // ---------------------------------------------------------------------
  // Split visits every original index once, in order

  /** The original indices visited under outer index o. */
  function Block(n: nat, f: nat, o: nat): (r: seq<nat>)
    ensures |r| == if InnerBound(n, f, o) < 0 then 0 else InnerBound(n, f, o)
  {
    var b := InnerBound(n, f, o);
    seq(if b < 0 then 0 else b, i requires 0 <= i < (if b < 0 then 0 else b) => o * f + i)
  }

  /** The original indices visited by the first k outer iterations. */
  function SplitPrefix(n: nat, f: nat, k: nat): seq<nat>
  {
    if k == 0 then [] else SplitPrefix(n, f, k - 1) + Block(n, f, k - 1)
  }

  /** The original indices the split loop nest visits, in order. */
  function SplitVisits(n: nat, f: nat): seq<nat>
    requires f > 0
  {
    SplitPrefix(n, f, CeilDiv(n, f))
  }

  /** `0, 1, ..., n - 1`. */
  function Iota(n: nat): (r: seq<nat>)
    ensures |r| == n && forall i :: 0 <= i < n ==> r[i] == i
  {
    seq(n, i requires 0 <= i < n => i)
  }

  lemma {:induction false} SplitPrefixIota(n: nat, f: nat, k: nat)
    requires f > 0 && k <= CeilDiv(n, f)
    ensures SplitPrefix(n, f, k) == Iota(BitValue.Min(k * f, n))
  {
    if k > 0 {
      SplitPrefixIota(n, f, k - 1);
      OuterRange(n, f, k - 1);
      var lo := (k - 1) * f;
      assert lo < n;
      assert k * f == lo + f;
      var b := Block(n, f, k - 1);
      assert f * (k - 1) == lo;
      assert |b| == BitValue.Min(f, n - lo);
      assert SplitPrefix(n, f, k - 1) == Iota(lo);
      assert Iota(lo) + b == Iota(BitValue.Min(k * f, n));
    }
  }

  /** Split coverage: for every length n, including lengths f does not
      divide, the split nest visits `0, ..., n - 1`, each once and in order. */
  lemma SplitCovers(n: nat, f: nat)
    requires f > 0
    ensures SplitVisits(n, f) == Iota(n)
  {
    CeilDivBounds(n, f);
    SplitPrefixIota(n, f, CeilDiv(n, f));
  }

  // ---------------------------------------------------------------------
  // Fuse

  /** The pairs `(k / lb, k % lb)` the fused loop recovers, in order. */
  function FuseVisits(la: nat, lb: nat): (r: seq<seq<nat>>)
    ensures |r| == la * lb
  {
    if lb == 0 then [] else seq(la * lb, k requires 0 <= k => Recover(k, lb))
  }

  /** The pair of original indices of fused index k. */
  function Recover(k: nat, lb: nat): seq<nat>
    requires lb > 0
  {
    [k / lb, k % lb]
  }

  lemma BoxOne(lb: nat, j: nat)
    requires j < lb
    ensures Box([lb])[j] == [j]
  {
    assert [lb][1..] == [];
    assert Box([]) == [[]];
    LayersAt(lb, [[]], j, 0);
  }

  /** Fusing loops of la and lb iterations visits the same pairs in the same
      order as the original two-level nest. */
  lemma FuseIsNest(la: nat, lb: nat)
    ensures FuseVisits(la, lb) == Box([la, lb])
  {
    var fv, bx := FuseVisits(la, lb), Box([la, lb]);
    assert [la, lb][1..] == [lb];
    assert Product([lb]) == lb;
    assert |bx| == la * lb;
    forall k | 0 <= k < la * lb
      ensures fv[k] == bx[k]
    {
      BoxAt([la, lb], k);
      BoxOne(lb, k % lb);
    }
  }

  /** Round trip: splitting a fused loop by the inner length gives back the
      original pair of indices, in the original order. */
  lemma FuseThenSplit(la: nat, lb: nat, o: nat, i: nat)
    requires lb > 0 && o < la && i < lb
    ensures o < CeilDiv(la * lb, lb) && i < InnerBound(la * lb, lb, o)
    ensures (o * lb + i) / lb == o && (o * lb + i) % lb == i
  {
    MulStep(o, la, lb, i);
    OuterRange(la * lb, lb, o);
    InnerRange(la * lb, lb, o, i);
    BitValue.DivModUnique(o * lb + i, lb, o, i);
  }

  /** `fuse(10, 20)` gives one loop `0 to 200`. */
  lemma FuseTenTwenty()
    ensures |FuseVisits(10, 20)| == 200
  {
  }

  // ---------------------------------------------------------------------
  // Reorder

  /** The original pairs `(a, b)` visited when the loop over b is moved
      outside the loop over a. */
  function SwapVisits(la: nat, lb: nat): seq<seq<nat>>
  {
    var bx := Box([lb, la]);
    seq(|bx|, k requires 0 <= k < |bx| => if |bx[k]| == 2 then [bx[k][1], bx[k][0]] else bx[k])
  }

  /** Reordering two loops visits exactly the pairs of the original nest,
      each once: a permutation of the original visiting order. */
  lemma SwapPermutes(la: nat, lb: nat, t: seq<nat>)
    ensures t in SwapVisits(la, lb) <==> t in Box([la, lb])
    ensures forall p, q :: 0 <= p < q < |SwapVisits(la, lb)| ==> SwapVisits(la, lb)[p] != SwapVisits(la, lb)[q]
    ensures |SwapVisits(la, lb)| == |Box([la, lb])|
  {
    SwapShape(la, lb);
    SwapMember(la, lb, t);
    SwapAllDistinct(la, lb);
  }

  /** Position k of the reordered nest is the swap of the k-th pair of the
      nest over (b, a). */
  lemma SwapShape(la: nat, lb: nat)
    ensures |SwapVisits(la, lb)| == |Box([lb, la])| == |Box([la, lb])|
    ensures forall k :: 0 <= k < |Box([lb, la])| ==>
      InBox(Box([lb, la])[k], [lb, la]) &&
      SwapVisits(la, lb)[k] == [Box([lb, la])[k][1], Box([lb, la])[k][0]]
  {
    var bx := Box([lb, la]);
    assert [lb, la][1..] == [la] && [la, lb][1..] == [lb];
    assert Product([]) == 1;
    assert Product([la]) == la;
    assert Product([lb]) == lb;
    forall k | 0 <= k < |bx|
      ensures InBox(bx[k], [lb, la])
    {
      BoxInBox([lb, la], k);
    }
  }

  lemma SwapMember(la: nat, lb: nat, t: seq<nat>)
    ensures t in SwapVisits(la, lb) <==> t in Box([la, lb])
  {
    var sv, bx := SwapVisits(la, lb), Box([lb, la]);
    SwapShape(la, lb);
    BoxMember(t, [la, lb]);
    if t in sv {
      var k :| 0 <= k < |sv| && sv[k] == t;
      assert InBox(t, [la, lb]);
    }
    if InBox(t, [la, lb]) {
      var u := [t[1], t[0]];
      BoxMember(u, [lb, la]);
      var k :| 0 <= k < |bx| && bx[k] == u;
      assert sv[k] == t;
    }
  }

  lemma SwapAllDistinct(la: nat, lb: nat)
    ensures forall p, q :: 0 <= p < q < |SwapVisits(la, lb)| ==> SwapVisits(la, lb)[p] != SwapVisits(la, lb)[q]
  {
    var sv, bx := SwapVisits(la, lb), Box([lb, la]);
    SwapShape(la, lb);
    forall p, q | 0 <= p < q < |sv|
      ensures sv[p] != sv[q]
    {
      BoxDistinct([lb, la], p, q);
      SwapDistinct(bx[p], bx[q]);
    }
  }

  lemma SwapDistinct(u: seq<nat>, v: seq<nat>)
    requires |u| == 2 && |v| == 2 && u != v
    ensures [u[1], u[0]] != [v[1], v[0]]
  {
    assert u == [u[0], u[1]] && v == [v[0], v[1]];
  }

  // ---------------------------------------------------------------------
  // Split followed by reorder(inner, outer)

  /** The original indices `o * f + i` visited by a nest over index pairs
      `[i, o]`, keeping the pairs that pass the guard `o * f + i < n`. */
  function Guarded(us: seq<seq<nat>>, n: nat, f: nat): (r: seq<nat>)
    ensures forall x :: x in r ==> x < n
  {
    if us == [] then []
    else
      var rest := Guarded(us[..|us| - 1], n, f);
      var u := us[|us| - 1];
      if |u| == 2 && u[1] * f + u[0] < n then rest + [u[1] * f + u[0]] else rest
  }

  /** The original indices visited once the inner loop of `split(n, f)` is
      moved outside the outer loop: the inner loop runs `0 to f`, the outer
      loop `0 to ceil(n / f)`, and the clipped inner bound becomes the guard
      `o * f + i < n`. */
  function SplitSwapVisits(n: nat, f: nat): seq<nat>
    requires f > 0
  {
    Guarded(Box([f, CeilDiv(n, f)]), n, f)
  }

  /** The one pair `[i, o]` of the nest that yields index x. */
  function PairOf(x: nat, f: nat): seq<nat>
    requires f > 0
  {
    [x % f, x / f]
  }

  lemma PairOfUnique(u: seq<nat>, x: nat, f: nat)
    requires f > 0 && |u| == 2 && u[0] < f && u[1] * f + u[0] == x
    ensures u == PairOf(x, f)
  {
    BitValue.DivModUnique(x, f, u[1], u[0]);
  }

  lemma {:induction false} GuardedCount(us: seq<seq<nat>>, n: nat, f: nat, x: nat)
    requires f > 0
    requires forall k :: 0 <= k < |us| ==> |us[k]| == 2 && us[k][0] < f
    ensures multiset(Guarded(us, n, f))[x] == if x < n then multiset(us)[PairOf(x, f)] else 0
  {
    if us != [] {
      var init, u := us[..|us| - 1], us[|us| - 1];
      assert us == init + [u];
      GuardedCount(init, n, f, x);
      GuardedLast(init, u, n, f, x);
      GuardHitsPair(u, n, f, x);
    }
  }

  /** The last pair adds one visit of x exactly when it passes the guard and
      yields x. */
  lemma GuardedLast(init: seq<seq<nat>>, u: seq<nat>, n: nat, f: nat, x: nat)
    requires f > 0 && |u| == 2
    ensures multiset(Guarded(init + [u], n, f))[x]
         == multiset(Guarded(init, n, f))[x] + (if u[1] * f + u[0] < n && u[1] * f + u[0] == x then 1 else 0)
    ensures multiset(init + [u])[PairOf(x, f)] == multiset(init)[PairOf(x, f)] + (if u == PairOf(x, f) then 1 else 0)
  {
    var us := init + [u];
    assert us[..|us| - 1] == init && us[|us| - 1] == u;
  }

  /** The pair passes the guard and yields x exactly when it is the pair of
      an index x below n. */
  lemma GuardHitsPair(u: seq<nat>, n: nat, f: nat, x: nat)
    requires f > 0 && |u| == 2 && u[0] < f
    ensures (u[1] * f + u[0] < n && u[1] * f + u[0] == x) <==> (x < n && u == PairOf(x, f))
  {
    if u[1] * f + u[0] == x {
      PairOfUnique(u, x, f);
    } else if u == PairOf(x, f) {
      DivModSplit(x, f);
    }
  }

  /** A sequence without repetitions holds each of its elements once. */
  lemma {:induction false} DistinctCount<T>(s: seq<T>, v: T)
    requires forall p, q :: 0 <= p < q < |s| ==> s[p] != s[q]
    ensures multiset(s)[v] == if v in s then 1 else 0
  {
    if s != [] {
      var init := s[..|s| - 1];
      assert s == init + [s[|s| - 1]];
      DistinctCount(init, v);
    }
  }

  lemma PairsOfBox(f: nat, c: nat)
    ensures forall k :: 0 <= k < |Box([f, c])| ==> |Box([f, c])[k]| == 2 && Box([f, c])[k][0] < f
  {
    forall k | 0 <= k < |Box([f, c])|
      ensures |Box([f, c])[k]| == 2 && Box([f, c])[k][0] < f
    {
      BoxInBox([f, c], k);
    }
  }

  lemma BoxAllDistinct(shape: seq<nat>)
    ensures forall p, q :: 0 <= p < q < |Box(shape)| ==> Box(shape)[p] != Box(shape)[q]
  {
    forall p, q | 0 <= p < q < |Box(shape)|
      ensures Box(shape)[p] != Box(shape)[q]
    {
      BoxDistinct(shape, p, q);
    }
  }

  /** The pair of an index below n lies in the reordered nest. */
  lemma PairInNest(n: nat, f: nat, x: nat)
    requires f > 0 && x < n
    ensures PairOf(x, f) in Box([f, CeilDiv(n, f)])
  {
    DivModSplit(x, f);
    assert x / f * f <= x;
    OuterRange(n, f, x / f);
    BoxMember(PairOf(x, f), [f, CeilDiv(n, f)]);
  }

  /** Split then reorder(inner, outer): every original index below n is
      visited exactly once, and no other index is visited. */
  lemma SplitSwapCovers(n: nat, f: nat, x: nat)
    requires f > 0
    ensures multiset(SplitSwapVisits(n, f))[x] == if x < n then 1 else 0
  {
    var bx := Box([f, CeilDiv(n, f)]);
    PairsOfBox(f, CeilDiv(n, f));
    GuardedCount(bx, n, f, x);
    if x < n {
      PairInNest(n, f, x);
      BoxAllDistinct([f, CeilDiv(n, f)]);
      DistinctCount(bx, PairOf(x, f));
    }
  }
}
