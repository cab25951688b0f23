/** The schedule object of `hcl.create_schedule`, and the schedules the
    stage tests build.

    `s[stage].split(...)` and the other primitives update the schedule in
    place: the stage list and the relocation table are fields, and each
    method either applies its primitive or reports the error and leaves both
    as they were. */
module Scheduling {
  import opened Wrappers
  import opened AxisMath
  import opened Schedule
  import opened ScheduleLaws
  import opened Lowering

  /** The new state after a primitive: its result, or the old state. */
  function Applied(s: Sched, r: Result<Sched, ScheduleError>): Sched
  {
    if r.Ok? then r.value else s
  }

  function ErrorOf(r: Result<Sched, ScheduleError>): Option<ScheduleError>
  {
    if r.Ok? then None else Some(r.error)
  }

  class Scheduler {
    var stages: seq<Stage>
    var relocation: map<string, (string, nat)>

    function State(): Sched
      reads this
    {
      Sched(stages, relocation)
    }

    ghost predicate Valid()
      reads this
    {
      ValidSched(State())
    }

    /** `hcl.create_schedule`: the traced stages, nothing relocated. */
    constructor (traced: seq<Stage>)
      requires ValidSched(Sched(traced, map[]))
      ensures Valid() && State() == Sched(traced, map[])
    {
      stages, relocation := traced, map[];
    }

    method Commit(r: Result<Sched, ScheduleError>) returns (err: Option<ScheduleError>)
      requires r.Ok? ==> ValidSched(r.value)
      requires Valid()
      modifies this
      ensures Valid() && State() == Applied(old(State()), r) && err == ErrorOf(r)
    {
      if r.Ok? {
        stages, relocation := r.value.stages, r.value.relocation;
        err := None;
      } else {
        err := Some(r.error);
      }
    }

    /** `s[stage].split(axis, factor)`. */
    method Split(stage: string, axis: string, factor: nat) returns (err: Option<ScheduleError>)
      requires Valid()
      modifies this
      ensures Valid()
      ensures State() == Applied(old(State()), Schedule.Split(old(State()), stage, axis, factor))
      ensures err == ErrorOf(Schedule.Split(old(State()), stage, axis, factor))
    {
      SplitKeepsValid(State(), stage, axis, factor);
      err := Commit(Schedule.Split(State(), stage, axis, factor));
    }

    /** `s[stage].fuse(a, b)`. */
    method Fuse(stage: string, a: string, b: string) returns (err: Option<ScheduleError>)
      requires Valid()
      modifies this
      ensures Valid()
      ensures State() == Applied(old(State()), Schedule.Fuse(old(State()), stage, a, b))
      ensures err == ErrorOf(Schedule.Fuse(old(State()), stage, a, b))
    {
      FuseKeepsValid(State(), stage, a, b);
      err := Commit(Schedule.Fuse(State(), stage, a, b));
    }

    /** `s[stage].reorder(*names)`. */
    method Reorder(stage: string, names: seq<string>) returns (err: Option<ScheduleError>)
      requires Valid()
      modifies this
      ensures Valid()
      ensures State() == Applied(old(State()), Schedule.Reorder(old(State()), stage, names))
      ensures err == ErrorOf(Schedule.Reorder(old(State()), stage, names))
    {
      ReorderKeepsValid(State(), stage, names);
      err := Commit(Schedule.Reorder(State(), stage, names));
    }

    /** `s[stage].unroll(axis, factor)`. */
    method Unroll(stage: string, axis: string, factor: nat) returns (err: Option<ScheduleError>)
      requires Valid()
      modifies this
      ensures Valid()
      ensures State() == Applied(old(State()), Schedule.Unroll(old(State()), stage, axis, factor))
      ensures err == ErrorOf(Schedule.Unroll(old(State()), stage, axis, factor))
    {
      UnrollKeepsValid(State(), stage, axis, factor);
      err := Commit(Schedule.Unroll(State(), stage, axis, factor));
    }

    /** `s[producer].compute_at(s[consumer], axis)`. */
    method ComputeAt(producer: string, consumer: string, axis: string) returns (err: Option<ScheduleError>)
      requires Valid()
      modifies this
      ensures Valid()
      ensures State() == Applied(old(State()), Schedule.ComputeAt(old(State()), producer, consumer, axis))
      ensures err == ErrorOf(Schedule.ComputeAt(old(State()), producer, consumer, axis))
    {
      ComputeAtKeepsValid(State(), producer, consumer, axis);
      err := Commit(Schedule.ComputeAt(State(), producer, consumer, axis));
    }

    /** `hcl.lower(s)`. */
    method Lower() returns (nests: seq<Nest>)
      ensures nests == Lowering.Lower(State())
      ensures forall n :: n in NestNames(nests) <==> n in StageNames(stages) && n !in relocation
    {
      nests := Lowering.Lower(State());
      forall n
        ensures n in NestNames(nests) <==> n in StageNames(stages) && n !in relocation
      {
        LowerFromMembers(State(), stages, n);
      }
    }
  }

  // ---------------------------------------------------------------------
  // The stage tests

  /** `popcount` traced with `for_(0, 10, tag=tag) as x`, `for_(0, 20) as y`
      and `for_(0, 32) as i`: `B[x, y] = 0` inside y, `B[x, y] += A[x, y][i]`
      inside i. */
  function Popcount(tag: string): Stage
  {
    NestStage(tag, [Loop("x", 10), Loop("y", 20), Loop("i", 32)],
              [Placed(2, Store("B", ["x", "y"])), Placed(3, Store("B", ["x", "y"]))])
  }

  function IntraStage(): Sched
  {
    Sched([Popcount("C")], map[])
  }

  function X(): Axis { Axis("x", Extent(10), None) }
  function Y(): Axis { Axis("y", Extent(20), None) }
  function I(): Axis { Axis("i", Extent(32), None) }

  /** The loop tagged "C" is the stage `s[popcount.C]`, with one axis per
      nested loop. */
  lemma TaggedStage()
    ensures Popcount("C").axes == [X(), Y(), I()]
    ensures AxisNames(Popcount("C").axes) == ["x", "y", "i"]
    ensures StageNames(IntraStage().stages) == ["C"]
    ensures ValidSched(IntraStage())
    ensures FindStage(IntraStage(), "C") == Some(Popcount("C"))
    ensures IndexOf(["C"], "C") == Some(0)
    ensures IndexOf(["x", "y", "i"], "x") == Some(0)
    ensures IndexOf(["x", "y", "i"], "y") == Some(1)
  {
    assert Popcount("C").axes == [X(), Y(), I()];
    assert AxisNames(Popcount("C").axes) == ["x", "y", "i"];
    assert StageNames(IntraStage().stages) == ["C"];
  }

  /** `s[C].unroll(C.axis[0], factor=3)` annotates x and nothing else. */
  lemma UnrollScenario()
    ensures Unroll(IntraStage(), "C", "x", 3)
         == Ok(Sched([Popcount("C").(axes := [X().(unroll := Some(3)), Y(), I()])], map[]))
  {
    TaggedStage();
    var s := IntraStage();
    assert IndexOf(StageNames(s.stages), "C") == Some(0);
    var st := s.stages[0];
    assert st == Popcount("C");
    assert IndexOf(AxisNames(st.axes), "x") == Some(0);
    assert st.axes[0 := st.axes[0].(unroll := Some(3))] == [X().(unroll := Some(3)), Y(), I()];
    var st' := st.(axes := st.axes[0 := st.axes[0].(unroll := Some(3))]);
    assert Unroll(s, "C", "x", 3) == Ok(WithStage(s, 0, st'));
    assert WithStage(s, 0, st').stages == [st'];
  }

  /** `s[C].reorder(C.axis[1], C.axis[0])` gives the nest y (0 to 20)
      around x (0 to 10). */
  lemma ReorderScenario()
    ensures Reorder(IntraStage(), "C", ["y", "x"])
         == Ok(Sched([Popcount("C").(axes := [Y(), X(), I()])], map[]))
  {
    TaggedStage();
    var st := Popcount("C");
    PopcountReorderGuards();
    PopcountReorderAxes();
    ReorderOk(IntraStage(), "C", 0, ["y", "x"]);
    var st' := st.(axes := [Y(), X(), I()]);
    assert WithStage(IntraStage(), 0, st').stages == [st'];
  }

  /** The successful path of `reorder`, once the stage is found and the
      three checks pass. */
  lemma ReorderOk(s: Sched, stage: string, si: nat, names: seq<string>)
    requires si < |s.stages| && IndexOf(StageNames(s.stages), stage) == Some(si) && !Involved(s, stage)
    requires FirstUnknown(s.stages[si].axes, names) == None && FirstRepeat(names) == None
    requires forall j :: 0 <= j < |s.stages[si].body| ==>
      !Straddles(s.stages[si].axes, NameSet(names), s.stages[si].body[j].level)
    ensures Reorder(s, stage, names)
         == Ok(WithStage(s, si, s.stages[si].(axes := Fill(s.stages[si].axes, NameSet(names), Picked(s.stages[si].axes, names)))))
  {
  }

  lemma PopcountReorderGuards()
    ensures FirstUnknown(Popcount("C").axes, ["y", "x"]) == None
    ensures FirstRepeat(["y", "x"]) == None
    ensures forall j :: 0 <= j < |Popcount("C").body| ==>
      !Straddles(Popcount("C").axes, NameSet(["y", "x"]), Popcount("C").body[j].level)
  {
    var st := Popcount("C");
    assert AxisNames(st.axes) == ["x", "y", "i"] by { TaggedStage(); }
    assert NameSet(["y", "x"]) == {"x", "y"};
    forall j | 0 <= j < |st.body|
      ensures !Straddles(st.axes, NameSet(["y", "x"]), st.body[j].level)
    {
      assert st.body[j].level >= 2;
    }
  }

  lemma PopcountReorderAxes()
    ensures FirstUnknown(Popcount("C").axes, ["y", "x"]) == None
    ensures Fill(Popcount("C").axes, NameSet(["y", "x"]), Picked(Popcount("C").axes, ["y", "x"])) == [Y(), X(), I()]
  {
    PopcountValid("C");
    SwapFirstTwo(X(), Y(), I());
  }

  /** Reordering the first two of three axes: both are found, picked in the
      new order, and put back in each other's place. */
  lemma SwapFirstTwo(a: Axis, b: Axis, c: Axis)
    requires a.name != b.name && c.name != a.name && c.name != b.name
    ensures FirstUnknown([a, b, c], [b.name, a.name]) == None
    ensures Fill([a, b, c], NameSet([b.name, a.name]), Picked([a, b, c], [b.name, a.name])) == [b, a, c]
  {
    SwapPicked(a, b, c);
    SwapFill(a, b, c);
  }

  lemma SwapPicked(a: Axis, b: Axis, c: Axis)
    requires a.name != b.name && c.name != a.name && c.name != b.name
    ensures FirstUnknown([a, b, c], [b.name, a.name]) == None
    ensures Picked([a, b, c], [b.name, a.name]) == [b, a]
  {
    var axes := [a, b, c];
    assert AxisNames(axes) == [a.name, b.name, c.name];
    assert IndexOf(AxisNames(axes), a.name) == Some(0);
    assert IndexOf(AxisNames(axes), b.name) == Some(1);
    assert Picked(axes, [a.name]) == [a];
  }

  lemma SwapFill(a: Axis, b: Axis, c: Axis)
    requires a.name != b.name && c.name != a.name && c.name != b.name
    ensures Fill([a, b, c], NameSet([b.name, a.name]), [b, a]) == [b, a, c]
  {
    var marked := NameSet([b.name, a.name]);
    FillKept(c, [], marked, []);
    FillTaken(b, [c], marked, a, []);
    FillTaken(a, [b, c], marked, b, [a]);
  }

  /** One step of `Fill`: an unmarked axis stays in place. */
  lemma FillKept(a: Axis, axes: seq<Axis>, names: set<string>, queue: seq<Axis>)
    requires a.name !in names
    ensures Fill([a] + axes, names, queue) == [a] + Fill(axes, names, queue)
  {
    assert ([a] + axes)[1..] == axes;
  }

  /** One step of `Fill`: a marked axis is replaced by the head of the queue. */
  lemma FillTaken(a: Axis, axes: seq<Axis>, names: set<string>, q: Axis, rest: seq<Axis>)
    requires a.name in names
    ensures Fill([a] + axes, names, [q] + rest) == [q] + Fill(axes, names, rest)
  {
    assert ([a] + axes)[1..] == axes;
    assert ([q] + rest)[1..] == rest;
  }

  /** `s[C].fuse(C.axis[0], C.axis[1])` gives one loop 0 to 200 around i. */
  lemma FuseScenario()
    ensures Fuse(IntraStage(), "C", "x", "y")
         == Ok(Sched([Stage("C", [Axis("x.y.fused", Extent(200), None), I()],
                            [Placed(1, Store("B", ["x", "y"])), Placed(2, Store("B", ["x", "y"]))])], map[]))
  {
    TaggedStage();
    var st := Popcount("C");
    assert !StoreAt(st.body, 1);
    assert "x" + "." + "y" + ".fused" == "x.y.fused";
    assert "x.y.fused" !in AxisNames(st.axes);
    assert FuseAxes(st.axes, 0) == [Axis("x.y.fused", Extent(200), None), I()];
    assert Flatten(st.body, 0) == [Placed(1, Store("B", ["x", "y"])), Placed(2, Store("B", ["x", "y"]))];
    var st' := st.(axes := FuseAxes(st.axes, 0), body := Flatten(st.body, 0));
    assert Fuse(IntraStage(), "C", "x", "y") == Ok(WithStage(IntraStage(), 0, st'));
    assert WithStage(IntraStage(), 0, st').stages == [st'];
  }

  /** `s[C].split(C.axis[0], factor=3)` gives x.outer 0 to 4, x.inner
      bounded by min(3, 10 - 3 * x.outer), then y 0 to 20; the last outer
      iteration runs one inner iteration. */
  lemma SplitScenario()
    ensures Split(IntraStage(), "C", "x", 3)
         == Ok(Sched([Stage("C", [Axis("x.outer", Extent(4), None), Axis("x.inner", Clipped(3, 10, "x.outer"), None), Y(), I()],
                            [Placed(3, Store("B", ["x", "y"])), Placed(4, Store("B", ["x", "y"]))])], map[]))
    ensures InnerBound(10, 3, 3) == 1
  {
    TaggedStage();
    SplitTenByThree();
    var st := Popcount("C");
    assert "x" + ".outer" == "x.outer" && "x" + ".inner" == "x.inner";
    assert "x.outer" !in AxisNames(st.axes) && "x.inner" !in AxisNames(st.axes);
    assert SplitAxes(st.axes, 0, 3)
        == [Axis("x.outer", Extent(4), None), Axis("x.inner", Clipped(3, 10, "x.outer"), None), Y(), I()];
    assert Deepen(st.body, 0) == [Placed(3, Store("B", ["x", "y"])), Placed(4, Store("B", ["x", "y"]))];
    var st' := st.(axes := SplitAxes(st.axes, 0, 3), body := Deepen(st.body, 0));
    assert Split(IntraStage(), "C", "x", 3) == Ok(WithStage(IntraStage(), 0, st'));
    assert WithStage(IntraStage(), 0, st').stages == [st'];
  }

  /** `absolute` traced with `for_(0, 10, tag="C") as x` and `for_(0, 20) as
      y`; both branches of the conditional write `B[x, y]` inside y. */
  function Absolute(): Stage
  {
    NestStage("C", [Loop("x", 10), Loop("y", 20)],
              [Placed(2, Store("B", ["x", "y"])), Placed(2, Store("B", ["x", "y"]))])
  }

  function XOuter(): Axis { Axis("x.outer", Extent(4), None) }
  function XInner(): Axis { Axis("x.inner", Clipped(3, 10, "x.outer"), None) }

  function SplitAbsolute(): Sched
  {
    Sched([Stage("C", [XOuter(), XInner(), Y()],
                 [Placed(3, Store("B", ["x", "y"])), Placed(3, Store("B", ["x", "y"]))])], map[])
  }

  /** `o, i = s[C].split(C.axis[0], factor=3)` gives x.outer 0 to 4 around
      x.inner. */
  lemma IfSplitScenario()
    ensures Split(Sched([Absolute()], map[]), "C", "x", 3) == Ok(SplitAbsolute())
  {
    SplitTenByThree();
    var s := Sched([Absolute()], map[]);
    var st := Absolute();
    assert st.axes == [X(), Y()];
    assert AxisNames(st.axes) == ["x", "y"];
    assert StageNames(s.stages) == ["C"];
    assert "x" + ".outer" == "x.outer" && "x" + ".inner" == "x.inner";
    assert SplitAxes(st.axes, 0, 3) == [XOuter(), XInner(), Y()];
    assert Deepen(st.body, 0) == [Placed(3, Store("B", ["x", "y"])), Placed(3, Store("B", ["x", "y"]))];
    var st' := st.(axes := SplitAxes(st.axes, 0, 3), body := Deepen(st.body, 0));
    assert Split(s, "C", "x", 3) == Ok(WithStage(s, 0, st'));
    assert WithStage(s, 0, st').stages == [st'];
  }

  /** `s[C].reorder(i, o)` then puts x.inner outside x.outer. */
  lemma IfReorderScenario()
    ensures Reorder(SplitAbsolute(), "C", ["x.inner", "x.outer"])
         == Ok(Sched([SplitAbsolute().stages[0].(axes := [XInner(), XOuter(), Y()])], map[]))
  {
    var s := SplitAbsolute();
    var st := s.stages[0];
    assert StageNames(s.stages) == ["C"];
    SplitAbsoluteReorderGuards();
    SplitAbsoluteReorderAxes();
    ReorderOk(s, "C", 0, ["x.inner", "x.outer"]);
    var st' := st.(axes := [XInner(), XOuter(), Y()]);
    assert WithStage(s, 0, st').stages == [st'];
  }

  lemma SplitAbsoluteReorderGuards()
    ensures FirstUnknown(SplitAbsolute().stages[0].axes, ["x.inner", "x.outer"]) == None
    ensures FirstRepeat(["x.inner", "x.outer"]) == None
    ensures forall j :: 0 <= j < |SplitAbsolute().stages[0].body| ==>
      !Straddles(SplitAbsolute().stages[0].axes, NameSet(["x.inner", "x.outer"]), SplitAbsolute().stages[0].body[j].level)
  {
    var st := SplitAbsolute().stages[0];
    var names := ["x.inner", "x.outer"];
    assert AxisNames(st.axes) == ["x.outer", "x.inner", "y"];
    assert NameSet(names) == {"x.inner", "x.outer"};
    forall j | 0 <= j < |st.body|
      ensures !Straddles(st.axes, NameSet(names), st.body[j].level)
    {
      assert st.body[j].level == 3;
    }
  }

  lemma SplitAbsoluteReorderAxes()
    ensures FirstUnknown(SplitAbsolute().stages[0].axes, ["x.inner", "x.outer"]) == None
    ensures Fill(SplitAbsolute().stages[0].axes, NameSet(["x.inner", "x.outer"]),
                 Picked(SplitAbsolute().stages[0].axes, ["x.inner", "x.outer"])) == [XInner(), XOuter(), Y()]
  {
    assert SplitAbsolute().stages[0].axes == [XOuter(), XInner(), Y()];
    SwapFirstTwo(XOuter(), XInner(), Y());
  }

  /** In the stage the split and the reorder leave, x.inner (outermost)
      and x.outer visit each x of the unscheduled loop over x exactly once,
      and y is Absolute's y. */
  lemma IfReorderCovers(x: nat)
    ensures Reorder(SplitAbsolute(), "C", ["x.inner", "x.outer"]).Ok?
    ensures var st := Reorder(SplitAbsolute(), "C", ["x.inner", "x.outer"]).value.stages[0];
      |st.axes| == 3 && st.axes[0].bound.Clipped? && st.axes[0].bound.factor > 0 && st.axes[1].bound.Extent? &&
      multiset(ClippedPairVisits(st.axes[0], st.axes[1]))[x] == multiset(Iota(Absolute().axes[0].bound.n))[x] &&
      st.axes[2] == Absolute().axes[1]
    ensures multiset(Iota(Absolute().axes[0].bound.n))[x] == if x < 10 then 1 else 0
  {
    IfReorderScenario();
    var st := Reorder(SplitAbsolute(), "C", ["x.inner", "x.outer"]).value.stages[0];
    assert st.axes == [XInner(), XOuter(), Y()];
    assert Absolute().axes == [X(), Y()];
    ClippedPairCovers(XInner(), XOuter(), x);
    IotaCount(10, x);
  }

  /** Once C is computed at y of Out, neither stage's loops may be split,
      fused or reordered: swapping x and y of Out would leave C's store
      under the wrong loop. */
  lemma ReorderAfterComputeAt()
    ensures Reorder(Relocating(), "Out", ["y", "x"]) == Err(Attached("Out"))
    ensures Split(Relocating(), "C", "xx", 2) == Err(Attached("C"))
    ensures Fuse(Relocating(), "Out", "x", "y") == Err(Attached("Out"))
  {
    InterStageShape();
    var s := Relocating();
    assert StageNames(s.stages) == ["C", "Out"];
    assert s.relocation["C"].0 == "Out";
    AttachedRefused(s, "Out", "x", 2, "x", "y", ["y", "x"]);
    AttachedRefused(s, "C", "xx", 2, "x", "y", ["y", "x"]);
  }

  /** `C = hcl.compute(A.shape, lambda xx, yy: A[xx, yy] + 1, name="C")`. */
  function Producer(): Stage
  {
    NestStage("C", [Loop("xx", 10), Loop("yy", 20)], [Placed(2, Store("C", ["xx", "yy"]))])
  }

  function InterStage(): Sched
  {
    Sched([Producer(), Popcount("Out")], map[])
  }

  lemma InterStageShape()
    ensures Producer().axes == [Axis("xx", Extent(10), None), Axis("yy", Extent(20), None)]
    ensures Popcount("Out").axes == [X(), Y(), I()]
    ensures AxisNames(Producer().axes) == ["xx", "yy"]
    ensures StageNames(InterStage().stages) == ["C", "Out"]
    ensures ValidSched(InterStage())
  {
    ProducerValid();
    PopcountValid("Out");
    assert StageNames(InterStage().stages) == ["C", "Out"];
  }

  lemma ProducerValid()
    ensures Producer().axes == [Axis("xx", Extent(10), None), Axis("yy", Extent(20), None)]
    ensures AxisNames(Producer().axes) == ["xx", "yy"]
    ensures ValidStage(Producer())
  {
    assert Producer().axes == [Axis("xx", Extent(10), None), Axis("yy", Extent(20), None)];
    assert AxisNames(Producer().axes) == ["xx", "yy"];
  }

  lemma PopcountValid(tag: string)
    ensures Popcount(tag).axes == [X(), Y(), I()]
    ensures AxisNames(Popcount(tag).axes) == ["x", "y", "i"]
    ensures ValidStage(Popcount(tag))
  {
    assert Popcount(tag).axes == [X(), Y(), I()];
    assert AxisNames(Popcount(tag).axes) == ["x", "y", "i"];
  }

  /** Seen from inside x and y of Out, the producer is its store with xx and
      yy renamed to x and y. */
  lemma ProducerRelocated()
    ensures Relocated(Producer(), Popcount("Out"), 2) == [Do(Store("C", ["x", "y"]))]
  {
    InterStageShape();
    var c, out := Producer(), Popcount("Out");
    assert c.axes[..2] == c.axes && out.axes[..2] == [X(), Y()];
    assert AxisNames([X(), Y()]) == ["x", "y"];
    assert IndexOf(["xx", "yy"], "xx") == Some(0) && IndexOf(["xx", "yy"], "yy") == Some(1);
    assert RenameStore(Store("C", ["xx", "yy"]), ["xx", "yy"], ["x", "y"]) == Store("C", ["x", "y"]);
    assert RelocatedBody(c, out, 2) == [Placed(2, Store("C", ["x", "y"]))];
  }

  function Relocating(): Sched
  {
    Sched(InterStage().stages, map["C" := ("Out", 1)])
  }

  /** `s[C].compute_at(s[Out], Out.axis[1])` records C under y, the loop at
      index 1 of Out. */
  lemma ComputeAtScenario()
    ensures ComputeAt(InterStage(), "C", "Out", "y") == Ok(Relocating())
  {
    InterStageShape();
    assert Aligned(Producer(), Popcount("Out"), 1);
    assert !IsTarget(InterStage(), "C");
    ComputeAtLaws(InterStage(), 0, 1, 1);
  }

  /** After it, lowering emits a single nest, Out's. */
  lemma ComputeAtLowersOut()
    ensures NestNames(Lower(Relocating())) == ["Out"]
  {
    assert Lower(Relocating()) == [Nest("Out", LowerStage(Relocating(), Popcount("Out")))];
  }

  /** C is spliced at depth 2 of Out, and nothing at depth 3. */
  lemma OutSplices()
    ensures |Popcount("Out").axes| == 3
    ensures Splices(Relocating(), Popcount("Out"))[2] == [Do(Store("C", ["x", "y"]))]
    ensures Splices(Relocating(), Popcount("Out"))[3] == []
  {
    InterStageShape();
    ProducerRelocated();
    var s, out := Relocating(), Popcount("Out");
    assert s.stages == [Producer(), out];
    assert s.stages[1..] == [out];
    assert TargetDepth(1, out) == 2;
    assert Gather([out], s.relocation, out, 2) == [];
    assert Gather([out], s.relocation, out, 3) == [];
    assert Gather(s.stages, s.relocation, out, 2) == Relocated(Producer(), out, 2);
    assert Gather(s.stages, s.relocation, out, 3) == [];
  }

  /** Inside y of Out, C's store, now indexed by x and y, comes first, ahead
      of `B[x, y] = 0` and the loop over i (0 to 32). */
  lemma ComputeAtInsideY()
    ensures Within(LowerStage(Relocating(), Popcount("Out")), 2)
         == [Do(Store("C", ["x", "y"])), Do(Store("B", ["x", "y"])), For(I(), [Do(Store("B", ["x", "y"]))])]
  {
    var out := Popcount("Out");
    var extra := Splices(Relocating(), out);
    OutSplices();
    OutStores();
    NestFromStep(out.axes, out.body, extra, 3);
    assert NestFrom(out.axes, out.body, 3, extra) == [Do(Store("B", ["x", "y"]))];
    NestLoops(out.axes, out.body, extra, 2);
    assert LowerStage(Relocating(), out) == NestFrom(out.axes, out.body, 0, extra);
  }

  /** Out writes `B[x, y] = 0` inside y and `B[x, y] += ...` inside i. */
  lemma OutStores()
    ensures Popcount("Out").axes[2] == I()
    ensures StoresAt(Popcount("Out").body, 2) == [Do(Store("B", ["x", "y"]))]
    ensures StoresAt(Popcount("Out").body, 3) == [Do(Store("B", ["x", "y"]))]
  {
    var body := Popcount("Out").body;
    assert body == [Placed(2, Store("B", ["x", "y"])), Placed(3, Store("B", ["x", "y"]))];
    assert body[1..] == [Placed(3, Store("B", ["x", "y"]))];
    assert body[1..][1..] == [];
  }

  /** `test_compute_at` through the schedule object: create it from the two
      traced stages, relocate C, lower. */
  method ComputeAtThroughScheduler() returns (err: Option<ScheduleError>, nests: seq<Nest>)
    ensures err == None
    ensures NestNames(nests) == ["Out"]
    ensures nests == [Nest("Out", LowerStage(Relocating(), Popcount("Out")))]
  {
    InterStageShape();
    var sch := new Scheduler(InterStage().stages);
    ComputeAtScenario();
    err := sch.ComputeAt("C", "Out", "y");
    ComputeAtLowersOut();
    nests := sch.Lower();
    assert Lower(Relocating()) == [Nest("Out", LowerStage(Relocating(), Popcount("Out")))];
  }
}
