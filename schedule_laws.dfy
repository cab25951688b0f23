/** What each schedule primitive does to a valid schedule: which axes it
    produces, which it keeps, that it keeps the schedule valid, and how its
    bounds relate to the index arithmetic of the transformation. */
module ScheduleLaws {
  import opened Wrappers
  import opened IterSpace
  import opened AxisMath
  import opened Schedule

  // ---------------------------------------------------------------------
  // Unique names

  lemma ConcatDistinct(a: seq<string>, b: seq<string>)
    requires Distinct(a) && Distinct(b)
    requires forall x :: x in a ==> x !in b
    ensures Distinct(a + b)
  {
    var c := a + b;
    forall p, q | 0 <= p < q < |c|
      ensures c[p] != c[q]
    {
      if q < |a| {
      } else if p >= |a| {
        assert c[p] == b[p - |a|] && c[q] == b[q - |a|];
      } else {
        assert c[p] in a && c[q] in b;
      }
    }
  }

  lemma SliceDistinct(a: seq<string>, i: nat, j: nat)
    requires Distinct(a) && i <= j <= |a|
    ensures Distinct(a[i..j])
  {
    forall p, q | 0 <= p < q < j - i
      ensures a[i..j][p] != a[i..j][q]
    {
      assert a[i..j][p] == a[i + p] && a[i..j][q] == a[i + q];
    }
  }

  /** Replacing the m axes at position p by new, distinct axes keeps the
      axis names unique. */
  lemma ReplaceDistinct(axes: seq<Axis>, p: nat, m: nat, repl: seq<Axis>)
    requires p + m <= |axes| && Distinct(AxisNames(axes)) && Distinct(AxisNames(repl))
    requires forall k :: 0 <= k < |repl| ==> repl[k].name !in AxisNames(axes)
    ensures Distinct(AxisNames(axes[..p] + repl + axes[p + m..]))
  {
    var na := AxisNames(axes);
    assert AxisNames(axes[..p] + repl + axes[p + m..]) == na[..p] + AxisNames(repl) + na[p + m..];
    SliceDistinct(na, 0, p);
    SliceDistinct(na, p + m, |na|);
    assert na[..p] == na[0..p];
    assert na[p + m..] == na[p + m..|na|];
    ConcatDistinct(na[..p], AxisNames(repl));
    forall x | x in na[..p] + AxisNames(repl)
      ensures x !in na[p + m..]
    {
      if x in na[..p] {
        var i :| 0 <= i < p && na[i] == x;
        var tail := na[p + m..];
        forall j | 0 <= j < |tail|
          ensures tail[j] != x
        {
          assert tail[j] == na[p + m + j];
        }
      }
    }
    ConcatDistinct(na[..p] + AxisNames(repl), na[p + m..]);
  }

  lemma SuffixDiffers(a: string)
    ensures a + ".outer" != a + ".inner"
  {
    assert (a + ".outer")[|a| + 1] == 'o';
    assert (a + ".inner")[|a| + 1] == 'i';
  }

  // ---------------------------------------------------------------------
  // split

  /** `split` replaces axis p of a stage by an outer axis of
      `ceil(n / f)` iterations and an inner axis clipped to
      `min(f, n - f * outer)`, keeps every other axis, moves the stores inside
      the split axis inside both new axes, touches no other stage, and keeps
      the schedule valid; the two new axes visit the original indices
      `0 .. n - 1`, each once and in order. */
  lemma SplitLaws(s: Sched, si: nat, p: nat, f: nat, t: Sched)
    requires ValidSched(s) && si < |s.stages| && p < |s.stages[si].axes|
    requires Split(s, s.stages[si].name, s.stages[si].axes[p].name, f) == Ok(t)
    ensures ValidSched(t) && t.relocation == s.relocation && |t.stages| == |s.stages|
    ensures forall k :: 0 <= k < |s.stages| && k != si ==> t.stages[k] == s.stages[k]
    ensures f > 0 && s.stages[si].axes[p].bound.Extent?
    ensures t.stages[si].name == s.stages[si].name
    ensures |t.stages[si].axes| == |s.stages[si].axes| + 1
    ensures t.stages[si].axes[..p] == s.stages[si].axes[..p]
    ensures t.stages[si].axes[p + 2..] == s.stages[si].axes[p + 1..]
    ensures t.stages[si].axes[p].bound == Extent(CeilDiv(s.stages[si].axes[p].bound.n, f))
    ensures t.stages[si].axes[p + 1].bound == Clipped(f, s.stages[si].axes[p].bound.n, t.stages[si].axes[p].name)
    ensures SplitVisits(s.stages[si].axes[p].bound.n, f) == Iota(s.stages[si].axes[p].bound.n)
    ensures |t.stages[si].body| == |s.stages[si].body|
    ensures forall j :: 0 <= j < |s.stages[si].body| ==>
      t.stages[si].body[j] == if s.stages[si].body[j].level > p
        then Placed(s.stages[si].body[j].level + 1, s.stages[si].body[j].store)
        else s.stages[si].body[j]
  {
    var st := s.stages[si];
    SplitOk(s, si, p, f, t);
    SplitStage(st, p, f);
    WithStageValid(s, si, st.(axes := SplitAxes(st.axes, p, f), body := Deepen(st.body, p)));
    SplitCovers(st.axes[p].bound.n, f);
  }

  /** A successful split passed every guard and replaced stage si. */
  lemma SplitOk(s: Sched, si: nat, p: nat, f: nat, t: Sched)
    requires ValidSched(s) && si < |s.stages| && p < |s.stages[si].axes|
    requires Split(s, s.stages[si].name, s.stages[si].axes[p].name, f) == Ok(t)
    ensures f > 0 && s.stages[si].axes[p].bound.Extent?
    ensures s.stages[si].axes[p].name + ".outer" !in AxisNames(s.stages[si].axes)
    ensures s.stages[si].axes[p].name + ".inner" !in AxisNames(s.stages[si].axes)
    ensures t == WithStage(s, si, s.stages[si].(axes := SplitAxes(s.stages[si].axes, p, f),
                                                body := Deepen(s.stages[si].body, p)))
  {
    IndexOfDistinct(StageNames(s.stages), si);
    IndexOfDistinct(AxisNames(s.stages[si].axes), p);
  }

  /** The split stage is valid, and its axes are the old ones with axis p
      replaced by the outer and the inner axis. */
  lemma SplitStage(st: Stage, p: nat, f: nat)
    requires ValidStage(st) && p < |st.axes| && f > 0 && st.axes[p].bound.Extent?
    requires st.axes[p].name + ".outer" !in AxisNames(st.axes)
    requires st.axes[p].name + ".inner" !in AxisNames(st.axes)
    ensures ValidStage(st.(axes := SplitAxes(st.axes, p, f), body := Deepen(st.body, p)))
    ensures SplitAxes(st.axes, p, f)[..p] == st.axes[..p]
    ensures SplitAxes(st.axes, p, f)[p + 2..] == st.axes[p + 1..]
  {
    var a := st.axes[p];
    var repl := [Axis(a.name + ".outer", Extent(CeilDiv(a.bound.n, f)), None),
                 Axis(a.name + ".inner", Clipped(f, a.bound.n, a.name + ".outer"), None)];
    SuffixDiffers(a.name);
    ReplaceDistinct(st.axes, p, 1, repl);
    var split := SplitAxes(st.axes, p, f);
    assert split == st.axes[..p] + repl + st.axes[p + 1..];
    assert split[..p] == st.axes[..p];
    assert split[p + 2..] == st.axes[p + 1..];
  }

  /** A stage taking part in a `compute_at` cannot be split; otherwise
      `split` fails exactly when the factor is zero, the axis is already
      clipped, or one of the new axis names is taken; an unknown stage or
      axis is reported as such. */
  lemma SplitErrors(s: Sched, stage: string, axis: string, f: nat)
    ensures stage !in StageNames(s.stages) ==> Split(s, stage, axis, f) == Err(UnknownStage(stage))
    ensures stage in StageNames(s.stages) && Involved(s, stage) ==> Split(s, stage, axis, f) == Err(Attached(stage))
    ensures forall si :: 0 <= si < |s.stages| && s.stages[si].name == stage && ValidSched(s) && !Involved(s, stage) ==>
      (axis !in AxisNames(s.stages[si].axes) ==> Split(s, stage, axis, f) == Err(UnknownAxis(axis))) &&
      (axis in AxisNames(s.stages[si].axes) ==>
        (Split(s, stage, axis, f).Err? <==>
          f == 0 || !s.stages[si].axes[IndexOf(AxisNames(s.stages[si].axes), axis).value].bound.Extent? ||
          axis + ".outer" in AxisNames(s.stages[si].axes) || axis + ".inner" in AxisNames(s.stages[si].axes)))
  {
    forall si | 0 <= si < |s.stages| && s.stages[si].name == stage && ValidSched(s) && !Involved(s, stage)
      ensures IndexOf(StageNames(s.stages), stage) == Some(si)
    {
      IndexOfDistinct(StageNames(s.stages), si);
    }
  }

  // ---------------------------------------------------------------------
  // fuse

  /** `fuse(a, b)` on adjacent axes of la and lb iterations replaces both by
      one axis of la * lb iterations, keeps the other axes, moves the stores
      inside both axes up one level, and keeps the schedule valid; the fused
      loop visits the pairs of the original nest in their original order. */
  lemma FuseLaws(s: Sched, si: nat, p: nat, t: Sched)
    requires ValidSched(s) && si < |s.stages| && p + 1 < |s.stages[si].axes|
    requires Fuse(s, s.stages[si].name, s.stages[si].axes[p].name, s.stages[si].axes[p + 1].name) == Ok(t)
    ensures ValidSched(t) && t.relocation == s.relocation && |t.stages| == |s.stages|
    ensures forall k :: 0 <= k < |s.stages| && k != si ==> t.stages[k] == s.stages[k]
    ensures s.stages[si].axes[p].bound.Extent? && s.stages[si].axes[p + 1].bound.Extent?
    ensures t.stages[si].name == s.stages[si].name
    ensures |t.stages[si].axes| == |s.stages[si].axes| - 1
    ensures t.stages[si].axes[..p] == s.stages[si].axes[..p]
    ensures t.stages[si].axes[p + 1..] == s.stages[si].axes[p + 2..]
    ensures t.stages[si].axes[p].bound
         == Extent(s.stages[si].axes[p].bound.n * s.stages[si].axes[p + 1].bound.n)
    ensures FuseVisits(s.stages[si].axes[p].bound.n, s.stages[si].axes[p + 1].bound.n)
         == Box([s.stages[si].axes[p].bound.n, s.stages[si].axes[p + 1].bound.n])
    ensures |t.stages[si].body| == |s.stages[si].body|
    ensures forall j :: 0 <= j < |s.stages[si].body| ==>
      s.stages[si].body[j].level != p + 1 &&
      t.stages[si].body[j] == if s.stages[si].body[j].level > p + 1
        then Placed(s.stages[si].body[j].level - 1, s.stages[si].body[j].store)
        else s.stages[si].body[j]
  {
    var st := s.stages[si];
    FuseOk(s, si, p, t);
    var st' := st.(axes := FuseAxes(st.axes, p), body := Flatten(st.body, p));
    FusedStage(st, p);
    WithStageValid(s, si, st');
    FuseIsNest(st.axes[p].bound.n, st.axes[p + 1].bound.n);
  }

  /** A successful fuse passed every guard and replaced stage si. */
  lemma FuseOk(s: Sched, si: nat, p: nat, t: Sched)
    requires ValidSched(s) && si < |s.stages| && p + 1 < |s.stages[si].axes|
    requires Fuse(s, s.stages[si].name, s.stages[si].axes[p].name, s.stages[si].axes[p + 1].name) == Ok(t)
    ensures s.stages[si].axes[p].bound.Extent? && s.stages[si].axes[p + 1].bound.Extent?
    ensures !StoreAt(s.stages[si].body, p + 1)
    ensures s.stages[si].axes[p].name + "." + s.stages[si].axes[p + 1].name + ".fused"
      !in AxisNames(s.stages[si].axes)
    ensures t == WithStage(s, si, s.stages[si].(axes := FuseAxes(s.stages[si].axes, p),
                                                body := Flatten(s.stages[si].body, p)))
  {
    IndexOfDistinct(StageNames(s.stages), si);
    IndexOfDistinct(AxisNames(s.stages[si].axes), p);
    IndexOfDistinct(AxisNames(s.stages[si].axes), p + 1);
  }

  /** The fused stage is valid, and no store sat between the fused axes. */
  lemma FusedStage(st: Stage, p: nat)
    requires ValidStage(st) && p + 1 < |st.axes|
    requires st.axes[p].bound.Extent? && st.axes[p + 1].bound.Extent?
    requires !StoreAt(st.body, p + 1)
    requires st.axes[p].name + "." + st.axes[p + 1].name + ".fused" !in AxisNames(st.axes)
    ensures ValidStage(st.(axes := FuseAxes(st.axes, p), body := Flatten(st.body, p)))
    ensures FuseAxes(st.axes, p)[..p] == st.axes[..p]
    ensures FuseAxes(st.axes, p)[p + 1..] == st.axes[p + 2..]
    ensures forall j :: 0 <= j < |st.body| ==> st.body[j].level != p + 1
  {
    var a, b := st.axes[p], st.axes[p + 1];
    var repl := [Axis(a.name + "." + b.name + ".fused", Extent(a.bound.n * b.bound.n), None)];
    ReplaceDistinct(st.axes, p, 2, repl);
    var fused := FuseAxes(st.axes, p);
    assert fused == st.axes[..p] + repl + st.axes[p + 2..];
    assert fused[..p] == st.axes[..p];
    assert fused[p + 1..] == st.axes[p + 2..];
  }

  /** `fuse` refuses axes that are not directly nested, in that order, and
      refuses every fuse on a stage taking part in a `compute_at`. */
  lemma FuseNeedsAdjacent(s: Sched, si: nat, p: nat, q: nat)
    requires ValidSched(s) && si < |s.stages| && p < |s.stages[si].axes| && q < |s.stages[si].axes|
    requires q != p + 1
    ensures Fuse(s, s.stages[si].name, s.stages[si].axes[p].name, s.stages[si].axes[q].name)
         == if Involved(s, s.stages[si].name) then Err(Attached(s.stages[si].name)) else Err(NotAdjacent)
  {
    IndexOfDistinct(StageNames(s.stages), si);
    IndexOfDistinct(AxisNames(s.stages[si].axes), p);
    IndexOfDistinct(AxisNames(s.stages[si].axes), q);
  }

  // ---------------------------------------------------------------------
  // reorder

  /** Filling the marked positions from a queue exchanges the marked axes
      for the queued ones. */
  lemma ConsBoth(a: Axis, b: Axis, fill: seq<Axis>, marked: seq<Axis>, axes: seq<Axis>, queue: seq<Axis>)
    requires multiset(fill) + multiset(marked) == multiset(axes) + multiset(queue)
    ensures multiset([b] + fill) + multiset([a] + marked) == multiset([a] + axes) + multiset([b] + queue)
  {
    forall x
      ensures (multiset([b] + fill) + multiset([a] + marked))[x] == (multiset([a] + axes) + multiset([b] + queue))[x]
    {
      assert (multiset(fill) + multiset(marked))[x] == (multiset(axes) + multiset(queue))[x];
    }
  }

  lemma ConsOne(a: Axis, fill: seq<Axis>, marked: seq<Axis>, axes: seq<Axis>, queue: seq<Axis>)
    requires multiset(fill) + multiset(marked) == multiset(axes) + multiset(queue)
    ensures multiset([a] + fill) + multiset(marked) == multiset([a] + axes) + multiset(queue)
  {
    forall x
      ensures (multiset([a] + fill) + multiset(marked))[x] == (multiset([a] + axes) + multiset(queue))[x]
    {
      assert (multiset(fill) + multiset(marked))[x] == (multiset(axes) + multiset(queue))[x];
    }
  }

  lemma FillUnfold(axes: seq<Axis>, names: set<string>, queue: seq<Axis>)
    requires axes != [] && |queue| == |Marked(axes, names)|
    ensures axes == [axes[0]] + axes[1..]
    ensures axes[0].name in names ==>
      queue != [] && queue == [queue[0]] + queue[1..] &&
      Fill(axes, names, queue) == [queue[0]] + Fill(axes[1..], names, queue[1..]) &&
      Marked(axes, names) == [axes[0]] + Marked(axes[1..], names)
    ensures axes[0].name !in names ==>
      Fill(axes, names, queue) == [axes[0]] + Fill(axes[1..], names, queue) &&
      Marked(axes, names) == Marked(axes[1..], names)
  {
  }

  lemma {:induction false} FillMultiset(axes: seq<Axis>, names: set<string>, queue: seq<Axis>)
    requires |queue| == |Marked(axes, names)|
    ensures multiset(Fill(axes, names, queue)) + multiset(Marked(axes, names))
         == multiset(axes) + multiset(queue)
  {
    if axes != [] {
      FillUnfold(axes, names, queue);
      if axes[0].name in names {
        FillMultiset(axes[1..], names, queue[1..]);
        ConsBoth(axes[0], queue[0], Fill(axes[1..], names, queue[1..]), Marked(axes[1..], names), axes[1..], queue[1..]);
      } else {
        FillMultiset(axes[1..], names, queue);
        ConsOne(axes[0], Fill(axes[1..], names, queue), Marked(axes[1..], names), axes[1..], queue);
      }
    }
  }

  /** Unmarked axes keep their position. */
  lemma {:induction false} FillKeeps(axes: seq<Axis>, names: set<string>, queue: seq<Axis>, k: nat)
    requires k < |axes| && axes[k].name !in names
    ensures Fill(axes, names, queue)[k] == axes[k]
  {
    if k > 0 {
      if axes[0].name in names && queue != [] {
        FillKeeps(axes[1..], names, queue[1..], k - 1);
      } else {
        FillKeeps(axes[1..], names, queue, k - 1);
      }
    }
  }

  /** The marked positions, read outer to inner, hold the queue in order. */
  lemma {:induction false} FillOrder(axes: seq<Axis>, names: set<string>, queue: seq<Axis>)
    requires |queue| == |Marked(axes, names)|
    requires forall k :: 0 <= k < |queue| ==> queue[k].name in names
    ensures Marked(Fill(axes, names, queue), names) == queue
  {
    if axes != [] {
      if axes[0].name in names {
        FillOrder(axes[1..], names, queue[1..]);
        assert queue == [queue[0]] + queue[1..];
      } else {
        FillOrder(axes[1..], names, queue);
      }
    }
  }

  lemma {:induction false} MarkedMembers(axes: seq<Axis>, names: set<string>, x: Axis)
    ensures x in Marked(axes, names) <==> x in axes && x.name in names
  {
    if axes != [] {
      MarkedMembers(axes[1..], names, x);
      assert axes == [axes[0]] + axes[1..];
    }
  }

  /** Two axes of one stage with the same name are the same axis. */
  lemma SameName(axes: seq<Axis>, x: Axis, y: Axis)
    requires Distinct(AxisNames(axes)) && x in axes && y in axes
    ensures x.name == y.name ==> x == y
  {
    var i :| 0 <= i < |axes| && axes[i] == x;
    var j :| 0 <= j < |axes| && axes[j] == y;
    assert AxisNames(axes)[i] == x.name && AxisNames(axes)[j] == y.name;
  }

  lemma DistinctAxes(axes: seq<Axis>)
    requires Distinct(AxisNames(axes))
    ensures forall p, q :: 0 <= p < q < |axes| ==> axes[p] != axes[q]
  {
    forall p, q | 0 <= p < q < |axes|
      ensures axes[p] != axes[q]
    {
      assert AxisNames(axes)[p] != AxisNames(axes)[q];
    }
  }

  lemma {:induction false} MarkedDistinct(axes: seq<Axis>, names: set<string>)
    requires Distinct(AxisNames(axes))
    ensures forall p, q :: 0 <= p < q < |Marked(axes, names)| ==> Marked(axes, names)[p] != Marked(axes, names)[q]
  {
    if axes != [] {
      var rest := axes[1..];
      assert AxisNames(rest) == AxisNames(axes)[1..];
      SliceDistinct(AxisNames(axes), 1, |axes|);
      assert AxisNames(axes)[1..] == AxisNames(axes)[1..|axes|];
      MarkedDistinct(rest, names);
      DistinctAxes(axes);
      assert axes[0] !in rest;
      MarkedMembers(rest, names, axes[0]);
    }
  }

  lemma PickedDistinct(axes: seq<Axis>, names: seq<string>)
    requires Distinct(names) && forall n :: n in names ==> n in AxisNames(axes)
    ensures forall p, q :: 0 <= p < q < |Picked(axes, names)| ==> Picked(axes, names)[p] != Picked(axes, names)[q]
  {
    var pk := Picked(axes, names);
    forall p, q | 0 <= p < q < |pk|
      ensures pk[p] != pk[q]
    {
      assert pk[p].name == names[p] && pk[q].name == names[q];
    }
  }

  lemma MarkedIsPicked(axes: seq<Axis>, names: seq<string>, x: Axis)
    requires Distinct(AxisNames(axes))
    requires forall n :: n in names ==> n in AxisNames(axes)
    requires x in Marked(axes, NameSet(names))
    ensures x in Picked(axes, names)
  {
    var pk := Picked(axes, names);
    MarkedMembers(axes, NameSet(names), x);
    assert x.name in names;
    var j :| 0 <= j < |names| && names[j] == x.name;
    SameName(axes, x, pk[j]);
  }

  /** The axes a `reorder` names are the marked axes, in another order. */
  lemma PickedIsMarked(axes: seq<Axis>, names: seq<string>)
    requires Distinct(AxisNames(axes)) && Distinct(names)
    requires forall n :: n in names ==> n in AxisNames(axes)
    ensures multiset(Picked(axes, names)) == multiset(Marked(axes, NameSet(names)))
  {
    var pk, mk := Picked(axes, names), Marked(axes, NameSet(names));
    PickedDistinct(axes, names);
    MarkedDistinct(axes, NameSet(names));
    forall x
      ensures multiset(pk)[x] == multiset(mk)[x]
    {
      DistinctCount(pk, x);
      DistinctCount(mk, x);
      MarkedMembers(axes, NameSet(names), x);
      if x in mk {
        MarkedIsPicked(axes, names, x);
      }
    }
  }

  lemma CountTwo(b: seq<Axis>, p: nat, q: nat)
    requires p < q < |b|
    ensures b[p] == b[q] ==> multiset(b)[b[p]] >= 2
  {
    assert b == b[..q] + [b[q]] + b[q + 1..];
    assert b[p] in b[..q];
  }

  /** If two lists hold the same axes, unique names carry over. */
  lemma PermutedDistinct(a: seq<Axis>, b: seq<Axis>)
    requires multiset(a) == multiset(b) && Distinct(AxisNames(a))
    ensures Distinct(AxisNames(b))
  {
    DistinctAxes(a);
    forall p, q | 0 <= p < q < |b|
      ensures b[p].name != b[q].name
    {
      assert b[p] in multiset(a) && b[q] in multiset(a);
      DistinctCount(a, b[p]);
      CountTwo(b, p, q);
      SameName(a, b[p], b[q]);
    }
  }

  lemma Cancel(fill: seq<Axis>, marked: seq<Axis>, axes: seq<Axis>, picked: seq<Axis>)
    requires multiset(fill) + multiset(marked) == multiset(axes) + multiset(picked)
    requires multiset(picked) == multiset(marked)
    ensures multiset(fill) == multiset(axes)
  {
    forall x
      ensures multiset(fill)[x] == multiset(axes)[x]
    {
      assert (multiset(fill) + multiset(marked))[x] == (multiset(axes) + multiset(picked))[x];
    }
  }

  /** The axis list a successful reorder produces. */
  lemma ReorderAxes(axes: seq<Axis>, names: seq<string>)
    requires Distinct(AxisNames(axes)) && Distinct(names)
    requires forall n :: n in names ==> n in AxisNames(axes)
    ensures |Picked(axes, names)| == |Marked(axes, NameSet(names))|
    ensures multiset(Fill(axes, NameSet(names), Picked(axes, names))) == multiset(axes)
    ensures Distinct(AxisNames(Fill(axes, NameSet(names), Picked(axes, names))))
    ensures AxisNames(Marked(Fill(axes, NameSet(names), Picked(axes, names)), NameSet(names))) == names
    ensures forall k :: 0 <= k < |axes| && axes[k].name !in names ==>
      Fill(axes, NameSet(names), Picked(axes, names))[k] == axes[k]
  {
    var marked := NameSet(names);
    var pk, mk := Picked(axes, names), Marked(axes, marked);
    PickedIsMarked(axes, names);
    assert |pk| == |multiset(pk)| == |multiset(mk)| == |mk|;
    FillMultiset(axes, marked, pk);
    var axes' := Fill(axes, marked, pk);
    Cancel(axes', mk, axes, pk);
    PermutedDistinct(axes, axes');
    FillOrder(axes, marked, pk);
    forall k | 0 <= k < |axes| && axes[k].name !in names
      ensures axes'[k] == axes[k]
    {
      FillKeeps(axes, marked, pk, k);
    }
  }

  /** `reorder(*names)` puts the named axes, in the order given, into the
      positions they occupied, leaves every other axis where it was, keeps
      every bound, so the stage holds the same axes as before, and keeps the
      schedule valid.  Each named axis occurs once among the positions
      filled. */
  lemma ReorderLaws(s: Sched, si: nat, names: seq<string>, t: Sched)
    requires ValidSched(s) && si < |s.stages|
    requires Reorder(s, s.stages[si].name, names) == Ok(t)
    ensures ValidSched(t) && t.relocation == s.relocation && |t.stages| == |s.stages|
    ensures forall k :: 0 <= k < |s.stages| && k != si ==> t.stages[k] == s.stages[k]
    ensures t.stages[si].name == s.stages[si].name && t.stages[si].body == s.stages[si].body
    ensures Distinct(names) && forall n :: n in names ==> n in AxisNames(s.stages[si].axes)
    ensures |t.stages[si].axes| == |s.stages[si].axes|
    ensures multiset(t.stages[si].axes) == multiset(s.stages[si].axes)
    ensures AxisNames(Marked(t.stages[si].axes, NameSet(names))) == names
    ensures forall k :: 0 <= k < |s.stages[si].axes| && s.stages[si].axes[k].name !in names ==>
      t.stages[si].axes[k] == s.stages[si].axes[k]
  {
    var st := s.stages[si];
    IndexOfDistinct(StageNames(s.stages), si);
    ReorderAxes(st.axes, names);
    var st' := st.(axes := Fill(st.axes, NameSet(names), Picked(st.axes, names)));
    assert ValidStage(st');
    WithStageValid(s, si, st');
  }

  /** Reordering two loops keeps the multiset of visited index pairs: the
      swapped nest visits each pair of the original nest exactly once. */
  lemma ReorderVisits(la: nat, lb: nat, t: seq<nat>)
    ensures t in SwapVisits(la, lb) <==> t in Box([la, lb])
    ensures multiset(SwapVisits(la, lb))[t] == multiset(Box([la, lb]))[t]
  {
    SwapPermutes(la, lb, t);
    forall p, q | 0 <= p < q < |Box([la, lb])|
      ensures Box([la, lb])[p] != Box([la, lb])[q]
    {
      BoxDistinct([la, lb], p, q);
    }
    DistinctCount(SwapVisits(la, lb), t);
    DistinctCount(Box([la, lb]), t);
  }

  /** The original indices visited by two loops of a stage in which the
      inner axis of a split, clipped to `min(f, n - f * outer)`, sits
      outside the outer axis it is clipped by: the clip becomes the guard
      `outer * f + inner < n`. */
  function ClippedPairVisits(inner: Axis, outer: Axis): seq<nat>
    requires inner.bound.Clipped? && inner.bound.factor > 0 && outer.bound.Extent?
  {
    Guarded(Box([inner.bound.factor, outer.bound.n]), inner.bound.total, inner.bound.factor)
  }

  /** Moving a split's inner axis outside its outer axis keeps the indices
      visited: each original index is visited exactly as often as by the
      unsplit loop `0 .. n - 1`. */
  lemma ClippedPairCovers(inner: Axis, outer: Axis, x: nat)
    requires inner.bound.Clipped? && inner.bound.factor > 0
    requires outer.name == inner.bound.outer
    requires outer.bound == Extent(CeilDiv(inner.bound.total, inner.bound.factor))
    ensures multiset(ClippedPairVisits(inner, outer))[x] == multiset(Iota(inner.bound.total))[x]
  {
    SplitSwapCovers(inner.bound.total, inner.bound.factor, x);
    IotaCount(inner.bound.total, x);
  }

  /** The unsplit loop `0 .. n - 1` visits each index below n once. */
  lemma IotaCount(n: nat, x: nat)
    ensures multiset(Iota(n))[x] == if x < n then 1 else 0
  {
    DistinctCount(Iota(n), x);
    if x < n {
      assert Iota(n)[x] == x;
    }
  }

  // ---------------------------------------------------------------------
  // unroll

  /** `unroll(axis, factor)` records the factor on that axis and changes
      nothing else: names, bounds, order and body stay as they were. */
  lemma UnrollLaws(s: Sched, si: nat, p: nat, factor: nat, t: Sched)
    requires ValidSched(s) && si < |s.stages| && p < |s.stages[si].axes|
    requires Unroll(s, s.stages[si].name, s.stages[si].axes[p].name, factor) == Ok(t)
    ensures ValidSched(t) && t.relocation == s.relocation && |t.stages| == |s.stages|
    ensures forall k :: 0 <= k < |s.stages| && k != si ==> t.stages[k] == s.stages[k]
    ensures t.stages[si].name == s.stages[si].name && t.stages[si].body == s.stages[si].body
    ensures |t.stages[si].axes| == |s.stages[si].axes|
    ensures forall k :: 0 <= k < |s.stages[si].axes| ==>
      t.stages[si].axes[k].name == s.stages[si].axes[k].name &&
      t.stages[si].axes[k].bound == s.stages[si].axes[k].bound &&
      t.stages[si].axes[k].unroll == if k == p then Some(factor) else s.stages[si].axes[k].unroll
  {
    var st := s.stages[si];
    IndexOfDistinct(StageNames(s.stages), si);
    IndexOfDistinct(AxisNames(st.axes), p);
    var st' := st.(axes := st.axes[p := st.axes[p].(unroll := Some(factor))]);
    assert AxisNames(st'.axes) == AxisNames(st.axes);
    WithStageValid(s, si, st');
  }

  // ---------------------------------------------------------------------
  // compute_at

  /** `compute_at` records that the producer runs inside the consumer's
      axis k, leaves every stage as it was, and keeps the schedule valid;
      it is refused when the producer is already relocated or the
      producer's outer axes do not match the consumer's down to axis k. */
  lemma ComputeAtLaws(s: Sched, pi: nat, ci: nat, k: nat)
    requires ValidSched(s) && pi < |s.stages| && ci < |s.stages| && k < |s.stages[ci].axes|
    ensures var r := ComputeAt(s, s.stages[pi].name, s.stages[ci].name, s.stages[ci].axes[k].name);
      r.Ok? <==> pi != ci && s.stages[pi].name !in s.relocation && s.stages[ci].name !in s.relocation &&
                 !IsTarget(s, s.stages[pi].name) && Aligned(s.stages[pi], s.stages[ci], k)
    ensures var r := ComputeAt(s, s.stages[pi].name, s.stages[ci].name, s.stages[ci].axes[k].name);
      r.Ok? ==> ValidSched(r.value) && r.value.stages == s.stages &&
                r.value.relocation == s.relocation[s.stages[pi].name := (s.stages[ci].name, k)]
    ensures s.stages[pi].name in s.relocation ==>
      ComputeAt(s, s.stages[pi].name, s.stages[ci].name, s.stages[ci].axes[k].name)
        == Err(AlreadyRelocated(s.stages[pi].name))
    ensures var r := ComputeAt(s, s.stages[pi].name, s.stages[ci].name, s.stages[ci].axes[k].name);
      r.Ok? ==> Involved(r.value, s.stages[pi].name) && Involved(r.value, s.stages[ci].name)
  {
    ComputeAtFinds(s, pi, ci, k);
    var p, c := s.stages[pi].name, s.stages[ci].name;
    if pi != ci && p !in s.relocation && c !in s.relocation && !IsTarget(s, p) && Aligned(s.stages[pi], s.stages[ci], k) {
      RelocateValid(s, p, c, k);
      var t := s.(relocation := s.relocation[p := (c, k)]);
      assert t.relocation[p].0 == c;
    }
  }

  /** Once a relocation ties two stages together, the loops of neither may
      be split, fused or reordered: each is refused with `Attached`, so the
      recorded consumer axis keeps naming the loop it was chosen as.  An
      `unroll` changes no bound and is still accepted. */
  lemma AttachedRefused(s: Sched, stage: string, axis: string, f: nat, a: string, b: string, names: seq<string>)
    requires stage in StageNames(s.stages) && Involved(s, stage)
    ensures Split(s, stage, axis, f) == Err(Attached(stage))
    ensures Fuse(s, stage, a, b) == Err(Attached(stage))
    ensures Reorder(s, stage, names) == Err(Attached(stage))
    ensures Unroll(s, stage, axis, f).Ok? <==> axis in AxisNames(FindStage(s, stage).value.axes)
  {
  }

  /** Named by their own names, the producer, the consumer and the axis are
      the ones found. */
  lemma ComputeAtFinds(s: Sched, pi: nat, ci: nat, k: nat)
    requires ValidSched(s) && pi < |s.stages| && ci < |s.stages| && k < |s.stages[ci].axes|
    ensures FindStage(s, s.stages[pi].name) == Some(s.stages[pi])
    ensures FindStage(s, s.stages[ci].name) == Some(s.stages[ci])
    ensures IndexOf(AxisNames(s.stages[ci].axes), s.stages[ci].axes[k].name) == Some(k)
    ensures pi != ci <==> s.stages[pi].name != s.stages[ci].name
  {
    IndexOfDistinct(StageNames(s.stages), pi);
    IndexOfDistinct(StageNames(s.stages), ci);
    assert ValidStage(s.stages[ci]);
    IndexOfDistinct(AxisNames(s.stages[ci].axes), k);
  }

  /** Recording a new relocation between two distinct, unrelocated stages,
      the producer not being a target, keeps the schedule valid. */
  lemma RelocateValid(s: Sched, p: string, c: string, k: nat)
    requires ValidSched(s) && p in StageNames(s.stages) && c in StageNames(s.stages)
    requires p != c && p !in s.relocation && c !in s.relocation && !IsTarget(s, p)
    requires Aligned(FindStage(s, p).value, FindStage(s, c).value, k)
    ensures ValidSched(s.(relocation := s.relocation[p := (c, k)]))
  {
    var t := s.(relocation := s.relocation[p := (c, k)]);
    assert t.stages == s.stages;
    forall q | q in t.relocation
      ensures ValidEntry(t, q)
    {
      RelocateEntry(s, p, c, k, q);
      SameFind(s, t, q);
      SameFind(s, t, t.relocation[q].0);
    }
  }

  /** One entry of the extended relocation table meets the conditions of a
      valid schedule. */
  lemma RelocateEntry(s: Sched, p: string, c: string, k: nat, q: string)
    requires ValidSched(s) && p in StageNames(s.stages) && c in StageNames(s.stages)
    requires p != c && p !in s.relocation && c !in s.relocation && !IsTarget(s, p)
    requires Aligned(FindStage(s, p).value, FindStage(s, c).value, k)
    requires q in s.relocation[p := (c, k)]
    ensures var r := s.relocation[p := (c, k)];
      q in StageNames(s.stages) && r[q].0 in StageNames(s.stages) && r[q].0 != q && r[q].0 !in r &&
      Aligned(FindStage(s, q).value, FindStage(s, r[q].0).value, r[q].1)
  {
    if q != p {
      assert s.relocation[p := (c, k)][q] == s.relocation[q];
      assert s.relocation[q].0 != p;
    }
  }

  /** Stage lookup depends only on the stages. */
  lemma SameFind(s: Sched, t: Sched, n: string)
    requires t.stages == s.stages
    ensures FindStage(t, n) == FindStage(s, n)
  {
  }

  // ---------------------------------------------------------------------
  // Every primitive keeps a schedule valid

  lemma SplitKeepsValid(s: Sched, stage: string, axis: string, f: nat)
    requires ValidSched(s)
    ensures Split(s, stage, axis, f).Ok? ==> ValidSched(Split(s, stage, axis, f).value)
  {
    if Split(s, stage, axis, f).Ok? {
      var si := IndexOf(StageNames(s.stages), stage).value;
      var p := IndexOf(AxisNames(s.stages[si].axes), axis).value;
      SplitLaws(s, si, p, f, Split(s, stage, axis, f).value);
    }
  }

  lemma FuseKeepsValid(s: Sched, stage: string, a: string, b: string)
    requires ValidSched(s)
    ensures Fuse(s, stage, a, b).Ok? ==> ValidSched(Fuse(s, stage, a, b).value)
  {
    if Fuse(s, stage, a, b).Ok? {
      var si := IndexOf(StageNames(s.stages), stage).value;
      var p := IndexOf(AxisNames(s.stages[si].axes), a).value;
      FuseLaws(s, si, p, Fuse(s, stage, a, b).value);
    }
  }

  lemma ReorderKeepsValid(s: Sched, stage: string, names: seq<string>)
    requires ValidSched(s)
    ensures Reorder(s, stage, names).Ok? ==> ValidSched(Reorder(s, stage, names).value)
  {
    if Reorder(s, stage, names).Ok? {
      var si := IndexOf(StageNames(s.stages), stage).value;
      ReorderLaws(s, si, names, Reorder(s, stage, names).value);
    }
  }

  lemma UnrollKeepsValid(s: Sched, stage: string, axis: string, factor: nat)
    requires ValidSched(s)
    ensures Unroll(s, stage, axis, factor).Ok? ==> ValidSched(Unroll(s, stage, axis, factor).value)
  {
    if Unroll(s, stage, axis, factor).Ok? {
      var si := IndexOf(StageNames(s.stages), stage).value;
      var p := IndexOf(AxisNames(s.stages[si].axes), axis).value;
      UnrollLaws(s, si, p, factor, Unroll(s, stage, axis, factor).value);
    }
  }

  lemma ComputeAtKeepsValid(s: Sched, producer: string, consumer: string, axis: string)
    requires ValidSched(s)
    ensures ComputeAt(s, producer, consumer, axis).Ok? ==> ValidSched(ComputeAt(s, producer, consumer, axis).value)
  {
    if ComputeAt(s, producer, consumer, axis).Ok? {
      var pi := IndexOf(StageNames(s.stages), producer).value;
      var ci := IndexOf(StageNames(s.stages), consumer).value;
      var k := IndexOf(AxisNames(s.stages[ci].axes), axis).value;
      ComputeAtLaws(s, pi, ci, k);
    }
  }
}
