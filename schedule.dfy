/** Stages, axes and the schedule primitives.

    A loop nest created with `for_(..., tag=name)`, or the nest of a
    `compute(shape, ..., name=name)`, is a stage: an ordered list of axes,
    outermost first, and a body of stores, each placed at the nesting level
    it was written at (level l sits inside the first l axes).  The schedule
    holds the stages in declaration order and a relocation table filled by
    `compute_at`.  `split`, `fuse`, `reorder` and `unroll` rewrite the axis
    list of one stage; each either succeeds or reports a schedule error and
    leaves the schedule as it was.  A stage that takes part in a
    `compute_at`, as producer or as consumer, has its loops tied to the
    other stage's, so `split`, `fuse` and `reorder` refuse it; `unroll`,
    which changes no bound, does not. */
module Schedule {
  import opened Wrappers
  import opened IterSpace
  import opened AxisMath

  /** The trip count of an axis: a fixed extent, or the clipped inner bound
      `min(factor, total - factor * outer)` that `split` creates. */
  datatype Bound = Extent(n: nat) | Clipped(factor: nat, total: nat, outer: string)

  /** One loop of a stage; `unroll` holds the factor of an `unroll`
      annotation. */
  datatype Axis = Axis(name: string, bound: Bound, unroll: Option<nat>)

  /** A store into a tensor, indexed by loop index variables. */
  datatype Store = Store(tensor: string, index: seq<string>)

  /** A store written inside the first `level` axes of its stage. */
  datatype Placed = Placed(level: nat, store: Store)

  datatype Stage = Stage(name: string, axes: seq<Axis>, body: seq<Placed>)

  /** The stages in declaration order, and for each relocated producer the
      consumer stage and the position of the consumer axis it is computed at. */
  datatype Sched = Sched(stages: seq<Stage>, relocation: map<string, (string, nat)>)

  datatype ScheduleError =
    | UnknownStage(stage: string)
    | UnknownAxis(axis: string)
    | ZeroFactor
    | NameClash(axis: string)
    | NotAdjacent
    | NotRectangular(axis: string)
    | RepeatedAxis(axis: string)
    | ImperfectNest
    | AlreadyRelocated(stage: string)
    | BadTarget
    | ExtentMismatch
    | Attached(stage: string)

  // ---------------------------------------------------------------------
  // Lookup

  function AxisNames(axes: seq<Axis>): (r: seq<string>)
    ensures |r| == |axes| && forall k :: 0 <= k < |axes| ==> r[k] == axes[k].name
  {
    seq(|axes|, k requires 0 <= k < |axes| => axes[k].name)
  }

  function StageNames(stages: seq<Stage>): (r: seq<string>)
    ensures |r| == |stages| && forall k :: 0 <= k < |stages| ==> r[k] == stages[k].name
  {
    seq(|stages|, k requires 0 <= k < |stages| => stages[k].name)
  }

  /** The first position of `x` in `names`. */
  function IndexOf(names: seq<string>, x: string): (r: Option<nat>)
    ensures r.Some? ==> r.value < |names| && names[r.value] == x
    ensures r.Some? ==> forall k :: 0 <= k < r.value ==> names[k] != x
    ensures r.None? <==> x !in names
  {
    if names == [] then None
    else if names[0] == x then Some(0)
    else match IndexOf(names[1..], x)
      case None => None
      case Some(k) => Some(k + 1)
  }

  predicate Distinct(names: seq<string>)
  {
    forall p, q :: 0 <= p < q < |names| ==> names[p] != names[q]
  }

  /** In a list of distinct names, a name's position is found by lookup. */
  lemma IndexOfDistinct(names: seq<string>, k: nat)
    requires Distinct(names) && k < |names|
    ensures IndexOf(names, names[k]) == Some(k)
  {
  }

  /** Axis names are unique within the stage and every store lies inside
      the nest. */
  predicate ValidStage(st: Stage)
  {
    Distinct(AxisNames(st.axes)) &&
    forall j :: 0 <= j < |st.body| ==> st.body[j].level <= |st.axes|
  }

  /** Stage names are unique, every stage is valid, and every relocation
      names a producer and a different consumer that both exist, the
      consumer itself not being relocated; the producer's outer axes still
      match the consumer's down to the recorded axis. */
  predicate ValidSched(s: Sched)
  {
    Distinct(StageNames(s.stages)) &&
    (forall k :: 0 <= k < |s.stages| ==> ValidStage(s.stages[k])) &&
    forall p :: p in s.relocation ==> ValidEntry(s, p)
  }

  /** The relocation of producer p names it and a different consumer that
      both exist, the consumer itself not being relocated, and p's outer
      axes match the consumer's down to the recorded axis. */
  predicate ValidEntry(s: Sched, p: string)
  {
    p in s.relocation &&
    p in StageNames(s.stages) && s.relocation[p].0 in StageNames(s.stages) &&
    s.relocation[p].0 != p && s.relocation[p].0 !in s.relocation &&
    Aligned(FindStage(s, p).value, FindStage(s, s.relocation[p].0).value, s.relocation[p].1)
  }

  /** The stage is relocated, or some relocation targets it. */
  predicate Involved(s: Sched, stage: string)
  {
    stage in s.relocation || IsTarget(s, stage)
  }

  /** Two stages with the same number of axes and the same bound at every
      position. */
  predicate SameBounds(a: Stage, b: Stage)
  {
    |a.axes| == |b.axes| && forall j :: 0 <= j < |a.axes| ==> a.axes[j].bound == b.axes[j].bound
  }

  /** Replace stage si, keeping the relocation table. */
  function WithStage(s: Sched, si: nat, st: Stage): Sched
    requires si < |s.stages|
  {
    s.(stages := s.stages[si := st])
  }

  /** After replacing a stage by one of the same name, a name finds the
      new stage if it is that name and the old stage otherwise. */
  lemma FindWithStage(s: Sched, si: nat, st: Stage, n: string)
    requires Distinct(StageNames(s.stages)) && si < |s.stages| && st.name == s.stages[si].name
    ensures FindStage(WithStage(s, si, st), n) == if n == st.name then Some(st) else FindStage(s, n)
  {
    var t := WithStage(s, si, st);
    assert StageNames(t.stages) == StageNames(s.stages);
    match IndexOf(StageNames(s.stages), n)
    case None =>
    case Some(k) =>
      assert StageNames(s.stages)[si] == st.name;
  }

  lemma AlignedSameBounds(p: Stage, c: Stage, p': Stage, c': Stage, k: nat)
    requires Aligned(p, c, k) && SameBounds(p, p') && SameBounds(c, c')
    ensures Aligned(p', c', k)
  {
  }

  /** Replacing a stage by a valid one of the same name keeps the schedule
      valid, provided a stage taking part in a relocation keeps its bounds. */
  lemma WithStageValid(s: Sched, si: nat, st: Stage)
    requires ValidSched(s) && si < |s.stages|
    requires st.name == s.stages[si].name && ValidStage(st)
    requires Involved(s, st.name) ==> SameBounds(s.stages[si], st)
    ensures ValidSched(WithStage(s, si, st))
  {
    var t := WithStage(s, si, st);
    assert StageNames(t.stages) == StageNames(s.stages);
    forall q | q in t.relocation
      ensures ValidEntry(t, q)
    {
      assert ValidEntry(s, q);
      var c := s.relocation[q].0;
      FindWithStage(s, si, st, q);
      FindWithStage(s, si, st, c);
      assert q == st.name ==> SameBounds(FindStage(s, q).value, FindStage(t, q).value);
      if c == st.name {
        assert IsTarget(s, c);
        assert SameBounds(FindStage(s, c).value, FindStage(t, c).value);
      }
      AlignedSameBounds(FindStage(s, q).value, FindStage(s, c).value,
                        FindStage(t, q).value, FindStage(t, c).value, s.relocation[q].1);
    }
  }

  // ---------------------------------------------------------------------
  // Stage creation

  /** A loop of a tagged nest: its index variable and trip count. */
  datatype Loop = Loop(index: string, extent: nat)

  /** `with for_(0, n1, tag=name) as i1: with for_(0, n2) as i2: ...`, or
      `compute(shape, lambda i1, i2, ...: ..., name=name)`: a stage with one
      axis per loop, in nesting order, and no annotation. */
  function NestStage(name: string, loops: seq<Loop>, body: seq<Placed>): (st: Stage)
    ensures st.name == name && |st.axes| == |loops| && st.body == body
    ensures forall k :: 0 <= k < |loops| ==>
      st.axes[k] == Axis(loops[k].index, Extent(loops[k].extent), None)
  {
    Stage(name, seq(|loops|, k requires 0 <= k < |loops| => Axis(loops[k].index, Extent(loops[k].extent), None)), body)
  }

  /** The stage of a given name, as schedule code finds it (`s[popcount.C]`). */
  function FindStage(s: Sched, name: string): (r: Option<Stage>)
    ensures r.Some? <==> name in StageNames(s.stages)
    ensures r.Some? ==> r.value in s.stages && r.value.name == name
  {
    match IndexOf(StageNames(s.stages), name)
    case None => None
    case Some(k) => Some(s.stages[k])
  }

  // ---------------------------------------------------------------------
  // split

  /** The outer and inner axes replacing axis p; the inner bound is clipped
      by the outer index. */
  function SplitAxes(axes: seq<Axis>, p: nat, f: nat): seq<Axis>
    requires p < |axes| && axes[p].bound.Extent? && f > 0
  {
    var a := axes[p];
    axes[..p]
      + [Axis(a.name + ".outer", Extent(CeilDiv(a.bound.n, f)), None),
         Axis(a.name + ".inner", Clipped(f, a.bound.n, a.name + ".outer"), None)]
      + axes[p + 1..]
  }

  /** Stores inside axis p move inside both of the axes replacing it. */
  function Deepen(body: seq<Placed>, p: nat): (r: seq<Placed>)
    ensures |r| == |body|
  {
    seq(|body|, j requires 0 <= j < |body| =>
      if body[j].level > p then Placed(body[j].level + 1, body[j].store) else body[j])
  }

  /** `s[stage].split(axis, factor)`. */
  function Split(s: Sched, stage: string, axis: string, f: nat): Result<Sched, ScheduleError>
  {
    match IndexOf(StageNames(s.stages), stage)
    case None => Err(UnknownStage(stage))
    case Some(si) =>
      if Involved(s, stage) then Err(Attached(stage)) else
      var st := s.stages[si];
      match IndexOf(AxisNames(st.axes), axis)
      case None => Err(UnknownAxis(axis))
      case Some(p) =>
        if f == 0 then Err(ZeroFactor)
        else if !st.axes[p].bound.Extent? then Err(NotRectangular(axis))
        else if axis + ".outer" in AxisNames(st.axes) then Err(NameClash(axis + ".outer"))
        else if axis + ".inner" in AxisNames(st.axes) then Err(NameClash(axis + ".inner"))
        else Ok(WithStage(s, si, st.(axes := SplitAxes(st.axes, p, f), body := Deepen(st.body, p))))
  }

  // ---------------------------------------------------------------------
  // fuse

  function FuseAxes(axes: seq<Axis>, p: nat): seq<Axis>
    requires p + 1 < |axes| && axes[p].bound.Extent? && axes[p + 1].bound.Extent?
  {
    var a, b := axes[p], axes[p + 1];
    axes[..p] + [Axis(a.name + "." + b.name + ".fused", Extent(a.bound.n * b.bound.n), None)] + axes[p + 2..]
  }

  /** Stores inside both fused axes move up one level. */
  function Flatten(body: seq<Placed>, p: nat): (r: seq<Placed>)
    ensures |r| == |body|
  {
    seq(|body|, j requires 0 <= j < |body| =>
      if body[j].level > p + 1 then Placed(body[j].level - 1, body[j].store) else body[j])
  }

  /** Some store sits between the two axes, inside the first only. */
  predicate StoreAt(body: seq<Placed>, level: nat)
  {
    exists j :: 0 <= j < |body| && body[j].level == level
  }

  /** `s[stage].fuse(a, b)`: b must be the axis directly inside a. */
  function Fuse(s: Sched, stage: string, a: string, b: string): Result<Sched, ScheduleError>
  {
    match IndexOf(StageNames(s.stages), stage)
    case None => Err(UnknownStage(stage))
    case Some(si) =>
      if Involved(s, stage) then Err(Attached(stage)) else
      var st := s.stages[si];
      match (IndexOf(AxisNames(st.axes), a), IndexOf(AxisNames(st.axes), b))
      case (None, _) => Err(UnknownAxis(a))
      case (_, None) => Err(UnknownAxis(b))
      case (Some(p), Some(q)) =>
        if q != p + 1 then Err(NotAdjacent)
        else if !st.axes[p].bound.Extent? then Err(NotRectangular(a))
        else if !st.axes[q].bound.Extent? then Err(NotRectangular(b))
        else if StoreAt(st.body, q) then Err(ImperfectNest)
        else if a + "." + b + ".fused" in AxisNames(st.axes) then Err(NameClash(a + "." + b + ".fused"))
        else Ok(WithStage(s, si, st.(axes := FuseAxes(st.axes, p), body := Flatten(st.body, p))))
  }

  // ---------------------------------------------------------------------
  // reorder

  /** The axes named in a `reorder`, in the order given. */
  function Picked(axes: seq<Axis>, names: seq<string>): (r: seq<Axis>)
    requires forall n :: n in names ==> n in AxisNames(axes)
    ensures |r| == |names|
    ensures forall j :: 0 <= j < |names| ==> r[j].name == names[j] && r[j] in axes
  {
    if names == [] then []
    else
      var k := IndexOf(AxisNames(axes), names[0]).value;
      [axes[k]] + Picked(axes, names[1..])
  }

  /** The axes whose name is in `names`, in their current order. */
  function Marked(axes: seq<Axis>, names: set<string>): seq<Axis>
  {
    if axes == [] then []
    else (if axes[0].name in names then [axes[0]] else []) + Marked(axes[1..], names)
  }

  function NameSet(names: seq<string>): (r: set<string>)
    ensures forall n :: n in r <==> n in names
  {
    set n | n in names
  }

  /** The positions held by marked axes, filled from `queue` in order. */
  function Fill(axes: seq<Axis>, names: set<string>, queue: seq<Axis>): (r: seq<Axis>)
    ensures |r| == |axes|
  {
    if axes == [] then []
    else if axes[0].name in names && queue != [] then [queue[0]] + Fill(axes[1..], names, queue[1..])
    else [axes[0]] + Fill(axes[1..], names, queue)
  }

  /** A store at this level is inside one named axis and outside another,
      so a reorder would move a loop across it. */
  predicate Straddles(axes: seq<Axis>, names: set<string>, level: nat)
  {
    (exists p :: 0 <= p < level && p < |axes| && axes[p].name in names) &&
    (exists q :: level <= q < |axes| && axes[q].name in names)
  }

  /** The first name of `names` that occurs again later. */
  function FirstRepeat(names: seq<string>): (r: Option<string>)
    ensures r.None? <==> Distinct(names)
  {
    if names == [] then None
    else if names[0] in names[1..] then Some(names[0])
    else FirstRepeat(names[1..])
  }

  /** The first name of `names` that is not an axis. */
  function FirstUnknown(axes: seq<Axis>, names: seq<string>): (r: Option<string>)
    ensures r.None? <==> forall n :: n in names ==> n in AxisNames(axes)
    ensures r.Some? ==> r.value in names && r.value !in AxisNames(axes)
  {
    if names == [] then None
    else if names[0] !in AxisNames(axes) then Some(names[0])
    else FirstUnknown(axes, names[1..])
  }

  /** `s[stage].reorder(*names)`: the positions the named axes occupy are
      filled with those axes in the order given; other axes stay put. */
  function Reorder(s: Sched, stage: string, names: seq<string>): Result<Sched, ScheduleError>
  {
    match IndexOf(StageNames(s.stages), stage)
    case None => Err(UnknownStage(stage))
    case Some(si) =>
      if Involved(s, stage) then Err(Attached(stage)) else
      var st := s.stages[si];
      match FirstUnknown(st.axes, names)
      case Some(n) => Err(UnknownAxis(n))
      case None =>
        match FirstRepeat(names)
        case Some(n) => Err(RepeatedAxis(n))
        case None =>
          var marked := NameSet(names);
          if exists j :: 0 <= j < |st.body| && Straddles(st.axes, marked, st.body[j].level) then Err(ImperfectNest)
          else Ok(WithStage(s, si, st.(axes := Fill(st.axes, marked, Picked(st.axes, names)))))
  }

  // ---------------------------------------------------------------------
  // unroll

  /** `s[stage].unroll(axis, factor)`: only the annotation changes. */
  function Unroll(s: Sched, stage: string, axis: string, factor: nat): Result<Sched, ScheduleError>
  {
    match IndexOf(StageNames(s.stages), stage)
    case None => Err(UnknownStage(stage))
    case Some(si) =>
      var st := s.stages[si];
      match IndexOf(AxisNames(st.axes), axis)
      case None => Err(UnknownAxis(axis))
      case Some(p) =>
        Ok(WithStage(s, si, st.(axes := st.axes[p := st.axes[p].(unroll := Some(factor))])))
  }

  // ---------------------------------------------------------------------
  // compute_at

  /** The producer's outer axes match the consumer's, position by position,
      down to and including consumer axis k. */
  predicate Aligned(producer: Stage, consumer: Stage, k: nat)
  {
    k < |producer.axes| && k < |consumer.axes| &&
    forall j :: 0 <= j <= k ==> producer.axes[j].bound == consumer.axes[j].bound
  }

  /** Some relocation already targets this stage. */
  predicate IsTarget(s: Sched, stage: string)
  {
    exists p :: p in s.relocation && s.relocation[p].0 == stage
  }

  /** `s[producer].compute_at(s[consumer], axis)`. */
  function ComputeAt(s: Sched, producer: string, consumer: string, axis: string): Result<Sched, ScheduleError>
  {
    match (FindStage(s, producer), FindStage(s, consumer))
    case (None, _) => Err(UnknownStage(producer))
    case (_, None) => Err(UnknownStage(consumer))
    case (Some(ps), Some(cs)) =>
      match IndexOf(AxisNames(cs.axes), axis)
      case None => Err(UnknownAxis(axis))
      case Some(k) =>
        if producer in s.relocation then Err(AlreadyRelocated(producer))
        else if producer == consumer || consumer in s.relocation || IsTarget(s, producer) then Err(BadTarget)
        else if !Aligned(ps, cs, k) then Err(ExtentMismatch)
        else Ok(s.(relocation := s.relocation[producer := (consumer, k)]))
  }
}
