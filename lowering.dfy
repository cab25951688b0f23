/** Lowering a schedule to loop nests.

    Every stage that `compute_at` did not relocate becomes one top-level
    loop nest, in declaration order, whose loops are the stage's axes,
    outermost first.  The stores written at level l come first in the body of
    the l-th loop (level 0: before the outermost loop), followed by the next
    loop.  A producer computed at consumer axis k is emitted inside the
    consumer's loop k, ahead of the consumer's own stores there: its first
    k + 1 index variables are renamed to the consumer's, and its remaining
    axes stay nested inside. */
module Lowering {
  import opened Wrappers
  import opened Schedule
  import opened BitValue

  datatype Stmt = For(axis: Axis, body: seq<Stmt>) | Do(store: Store)

  /** A top-level loop nest and the stage it comes from. */
  datatype Nest = Nest(stage: string, body: seq<Stmt>)

  /** The stores written at exactly this level, in program order. */
  function StoresAt(body: seq<Placed>, level: nat): seq<Stmt>
  {
    if body == [] then []
    else (if body[0].level == level then [Do(body[0].store)] else []) + StoresAt(body[1..], level)
  }

  /** The statements inside the first k axes: what is spliced there, the
      stores of level k, then the loop over axis k. */
  function NestFrom(axes: seq<Axis>, body: seq<Placed>, k: nat, extra: seq<seq<Stmt>>): seq<Stmt>
    requires k <= |axes| && |extra| == |axes| + 1
    decreases |axes| - k
  {
    var here := extra[k] + StoresAt(body, k);
    if k == |axes| then here else here + [For(axes[k], NestFrom(axes, body, k + 1, extra))]
  }

  // ---------------------------------------------------------------------
  // Relocation

  /** The consumer's name for a producer index variable. */
  function RenameIndex(x: string, from: seq<string>, to: seq<string>): string
  {
    match IndexOf(from, x)
    case None => x
    case Some(j) => if j < |to| then to[j] else x
  }

  function RenameStore(st: Store, from: seq<string>, to: seq<string>): Store
  {
    Store(st.tensor, seq(|st.index|, k requires 0 <= k < |st.index| => RenameIndex(st.index[k], from, to)))
  }

  /** The producer's body seen from inside the consumer's first d loops:
      index variables renamed, and stores outside the elided loops moved in. */
  function RelocatedBody(p: Stage, c: Stage, d: nat): seq<Placed>
  {
    var from, to := AxisNames(p.axes[..Min(d, |p.axes|)]), AxisNames(c.axes[..Min(d, |c.axes|)]);
    seq(|p.body|, j requires 0 <= j < |p.body| =>
      Placed(Max(p.body[j].level, d), RenameStore(p.body[j].store, from, to)))
  }

  /** What a producer contributes at depth d of its consumer. */
  function Relocated(p: Stage, c: Stage, d: nat): seq<Stmt>
  {
    var start := Min(d, |p.axes|);
    NestFrom(p.axes, RelocatedBody(p, c, d), start, NoSplices(|p.axes| + 1))
  }

  /** A producer's own loops receive no spliced statements. */
  function NoSplices(n: nat): (r: seq<seq<Stmt>>)
    ensures |r| == n
  {
    seq(n, _ => [])
  }

  /** The depth of the consumer a relocation entry splices into. */
  function TargetDepth(k: nat, c: Stage): nat
  {
    Min(k + 1, |c.axes|)
  }

  /** The producers, among `stages`, computed at depth d of consumer c, in
      declaration order. */
  function Gather(stages: seq<Stage>, relocation: map<string, (string, nat)>, c: Stage, d: nat): seq<Stmt>
  {
    if stages == [] then []
    else
      var p := stages[0];
      var here := if p.name in relocation && relocation[p.name].0 == c.name && TargetDepth(relocation[p.name].1, c) == d
        then Relocated(p, c, d) else [];
      here + Gather(stages[1..], relocation, c, d)
  }

  function Splices(s: Sched, c: Stage): (r: seq<seq<Stmt>>)
    ensures |r| == |c.axes| + 1
  {
    seq(|c.axes| + 1, d requires 0 <= d <= |c.axes| => Gather(s.stages, s.relocation, c, d))
  }

  function LowerStage(s: Sched, st: Stage): seq<Stmt>
  {
    NestFrom(st.axes, st.body, 0, Splices(s, st))
  }

  function LowerFrom(s: Sched, stages: seq<Stage>): seq<Nest>
  {
    if stages == [] then []
    else
      var here := if stages[0].name in s.relocation then [] else [Nest(stages[0].name, LowerStage(s, stages[0]))];
      here + LowerFrom(s, stages[1..])
  }

  /** `hcl.lower(s)`: one loop nest per stage that is not relocated. */
  function Lower(s: Sched): seq<Nest>
  {
    LowerFrom(s, s.stages)
  }

  function NestNames(ns: seq<Nest>): (r: seq<string>)
    ensures |r| == |ns| && forall k :: 0 <= k < |ns| ==> r[k] == ns[k].stage
  {
    seq(|ns|, k requires 0 <= k < |ns| => ns[k].stage)
  }

  // ---------------------------------------------------------------------
  // Walking into a nest

  /** The body of the loop a statement list ends with. */
  function Inner(stmts: seq<Stmt>): seq<Stmt>
  {
    if stmts != [] && stmts[|stmts| - 1].For? then stmts[|stmts| - 1].body else []
  }

  /** The statements inside the first l loops of a nest. */
  function Within(stmts: seq<Stmt>, l: nat): seq<Stmt>
    decreases l
  {
    if l == 0 then stmts else Within(Inner(stmts), l - 1)
  }

  // ---------------------------------------------------------------------
  // Properties

  /** A store is emitted at a level exactly when it was written there. */
  lemma {:induction false} StoresAtMember(body: seq<Placed>, level: nat, st: Store)
    ensures Do(st) in StoresAt(body, level) <==> Placed(level, st) in body
  {
    if body != [] {
      StoresAtMember(body[1..], level, st);
      assert body == [body[0]] + body[1..];
    }
  }

  /** Lowering nests the axes in the order of the axis list: inside the
      first l loops sit what is spliced at depth l, the stores of level l,
      and then the loop over axis l. */
  lemma {:induction false} NestWithin(axes: seq<Axis>, body: seq<Placed>, extra: seq<seq<Stmt>>, k: nat, l: nat)
    requires k + l <= |axes| && |extra| == |axes| + 1
    ensures Within(NestFrom(axes, body, k, extra), l) == NestFrom(axes, body, k + l, extra)
    decreases l
  {
    if l > 0 {
      var n := NestFrom(axes, body, k, extra);
      assert n == (extra[k] + StoresAt(body, k)) + [For(axes[k], NestFrom(axes, body, k + 1, extra))];
      assert Inner(n) == NestFrom(axes, body, k + 1, extra);
      NestWithin(axes, body, extra, k + 1, l - 1);
    }
  }

  /** The stage's axes appear as the loops of its nest, outermost first:
      the loop inside the first l loops is the one over axis l, and the stores
      of level l are there before it. */
  lemma NestLoops(axes: seq<Axis>, body: seq<Placed>, extra: seq<seq<Stmt>>, l: nat)
    requires l <= |axes| && |extra| == |axes| + 1
    ensures Within(NestFrom(axes, body, 0, extra), l)
         == extra[l] + StoresAt(body, l) + (if l < |axes| then [For(axes[l], NestFrom(axes, body, l + 1, extra))] else [])
  {
    NestWithin(axes, body, extra, 0, l);
    NestFromStep(axes, body, extra, l);
  }

  lemma NestFromStep(axes: seq<Axis>, body: seq<Placed>, extra: seq<seq<Stmt>>, l: nat)
    requires l <= |axes| && |extra| == |axes| + 1
    ensures NestFrom(axes, body, l, extra)
         == extra[l] + StoresAt(body, l) + (if l < |axes| then [For(axes[l], NestFrom(axes, body, l + 1, extra))] else [])
  {
    if l == |axes| {
      assert extra[l] + StoresAt(body, l) + [] == extra[l] + StoresAt(body, l);
    }
  }

  /** Every unrelocated stage is lowered to a nest of its own, and no
      relocated stage is emitted at top level. */
  lemma {:induction false} LowerFromMembers(s: Sched, stages: seq<Stage>, name: string)
    ensures name in NestNames(LowerFrom(s, stages)) <==> name in StageNames(stages) && name !in s.relocation
  {
    if stages != [] {
      LowerFromMembers(s, stages[1..], name);
      var head := if stages[0].name in s.relocation then [] else [Nest(stages[0].name, LowerStage(s, stages[0]))];
      assert NestNames(LowerFrom(s, stages)) == NestNames(head) + NestNames(LowerFrom(s, stages[1..]));
      assert NestNames(head) == if stages[0].name in s.relocation then [] else [stages[0].name];
      assert StageNames(stages) == [stages[0].name] + StageNames(stages[1..]);
    }
  }

  /** The names a lowering step emits: the first stage's own, unless it
      was relocated, then the rest. */
  lemma LowerFromStep(s: Sched, stages: seq<Stage>)
    requires stages != []
    ensures NestNames(LowerFrom(s, stages))
         == (if stages[0].name in s.relocation then [] else [stages[0].name]) + NestNames(LowerFrom(s, stages[1..]))
  {
    var head := if stages[0].name in s.relocation then [] else [Nest(stages[0].name, LowerStage(s, stages[0]))];
    assert LowerFrom(s, stages) == head + LowerFrom(s, stages[1..]);
  }

  lemma ConsDistinct(x: string, t: seq<string>)
    requires Distinct(t) && x !in t
    ensures Distinct([x] + t)
  {
    var r := [x] + t;
    forall p, q | 0 <= p < q < |r|
      ensures r[p] != r[q]
    {
      assert r[q] == t[q - 1];
      if p > 0 {
        assert r[p] == t[p - 1];
      }
    }
  }

  lemma {:induction false} LowerFromDistinct(s: Sched, stages: seq<Stage>)
    requires Distinct(StageNames(stages))
    ensures Distinct(NestNames(LowerFrom(s, stages)))
  {
    if stages != [] {
      var rest := stages[1..];
      assert StageNames(rest) == StageNames(stages)[1..];
      LowerFromDistinct(s, rest);
      LowerFromStep(s, stages);
      if stages[0].name !in s.relocation {
        LowerFromMembers(s, rest, stages[0].name);
        assert stages[0].name !in StageNames(rest);
        ConsDistinct(stages[0].name, NestNames(LowerFrom(s, rest)));
      } else {
        assert [] + NestNames(LowerFrom(s, rest)) == NestNames(LowerFrom(s, rest));
      }
    }
  }

  /** `hcl.lower` emits exactly one nest for each stage `compute_at` did not
      relocate, and none for a relocated one. */
  lemma LowerEmitsEachOnce(s: Sched, name: string)
    requires ValidSched(s)
    ensures name in NestNames(Lower(s)) <==> name in StageNames(s.stages) && name !in s.relocation
    ensures Distinct(NestNames(Lower(s)))
  {
    LowerFromMembers(s, s.stages, name);
    LowerFromDistinct(s, s.stages);
  }

  lemma {:induction false} GatherHas(stages: seq<Stage>, relocation: map<string, (string, nat)>, c: Stage, d: nat, p: Stage, x: Stmt)
    requires p in stages && p.name in relocation && relocation[p.name].0 == c.name
    requires TargetDepth(relocation[p.name].1, c) == d && x in Relocated(p, c, d)
    ensures x in Gather(stages, relocation, c, d)
  {
    if stages[0] != p {
      GatherHas(stages[1..], relocation, c, d, p, x);
    }
  }

  /** A producer's store written at level l is emitted, with the
      consumer's index variables, inside the first `max(l, d) - d` loops of
      the producer's part at depth d: a store inside the elided loops comes
      first in that part, a deeper one stays inside the producer's
      remaining loops at its own level. */
  lemma RelocatedStoreDepth(p: Stage, c: Stage, d: nat, l: nat, st: Store)
    requires d <= |p.axes| && d <= |c.axes| && l <= |p.axes| && Placed(l, st) in p.body
    ensures Do(RenameStore(st, AxisNames(p.axes[..d]), AxisNames(c.axes[..d])))
         in Within(Relocated(p, c, d), Max(l, d) - d)
  {
    var j :| 0 <= j < |p.body| && p.body[j] == Placed(l, st);
    var x := RenameStore(st, AxisNames(p.axes[..d]), AxisNames(c.axes[..d]));
    RelocatedBodyAt(p, c, d, j, l, st);
    StoreDepthIn(p.axes, RelocatedBody(p, c, d), NoSplices(|p.axes| + 1), d, Max(l, d) - d, x);
    InRelocated(p, c, d, Max(l, d) - d, Do(x));
  }

  /** The producer's j-th store, written at level l, is in the relocated
      body renamed and moved to level max(l, d). */
  lemma RelocatedBodyAt(p: Stage, c: Stage, d: nat, j: nat, l: nat, st: Store)
    requires d <= |p.axes| && d <= |c.axes| && j < |p.body| && p.body[j] == Placed(l, st)
    ensures Placed(d + (Max(l, d) - d), RenameStore(st, AxisNames(p.axes[..d]), AxisNames(c.axes[..d])))
         in RelocatedBody(p, c, d)
  {
    assert RelocatedBody(p, c, d)[j]
        == Placed(Max(l, d), RenameStore(st, AxisNames(p.axes[..d]), AxisNames(c.axes[..d])));
  }

  /** Below the consumer's depth d, the producer's part is its own nest
      entered at depth d over the relocated body. */
  lemma InRelocated(p: Stage, c: Stage, d: nat, n: nat, y: Stmt)
    requires d <= |p.axes|
    requires y in Within(NestFrom(p.axes, RelocatedBody(p, c, d), d, NoSplices(|p.axes| + 1)), n)
    ensures y in Within(Relocated(p, c, d), n)
  {
  }

  /** A store at level d + l of a nest entered at depth d lies inside its
      first l loops. */
  lemma StoreDepthIn(axes: seq<Axis>, body: seq<Placed>, extra: seq<seq<Stmt>>, d: nat, l: nat, x: Store)
    requires d + l <= |axes| && |extra| == |axes| + 1 && Placed(d + l, x) in body
    ensures Do(x) in Within(NestFrom(axes, body, d, extra), l)
  {
    StoreInNest(axes, body, extra, d + l, x);
    NestWithin(axes, body, extra, d, l);
  }

  /** A store written at level m is among the statements inside the first
      m loops. */
  lemma StoreInNest(axes: seq<Axis>, body: seq<Placed>, extra: seq<seq<Stmt>>, m: nat, x: Store)
    requires m <= |axes| && |extra| == |axes| + 1 && Placed(m, x) in body
    ensures Do(x) in NestFrom(axes, body, m, extra)
  {
    StoresAtMember(body, m, x);
    NestFromStep(axes, body, extra, m);
  }

  /** Among the first d index variables, the producer's j-th is renamed to
      the consumer's j-th; any other index variable keeps its name. */
  lemma RenameAligned(p: Stage, c: Stage, d: nat, j: nat)
    requires Distinct(AxisNames(p.axes)) && d <= |p.axes| && d <= |c.axes| && j < d
    ensures RenameIndex(p.axes[j].name, AxisNames(p.axes[..d]), AxisNames(c.axes[..d])) == c.axes[j].name
  {
    var from := AxisNames(p.axes[..d]);
    assert from[j] == p.axes[j].name;
    assert forall v :: 0 <= v < d ==> from[v] == AxisNames(p.axes)[v];
  }

  /** A name outside the producer's first d index variables is not renamed. */
  lemma RenameOther(x: string, from: seq<string>, to: seq<string>)
    requires x !in from
    ensures RenameIndex(x, from, to) == x
  {
  }

  /** `compute_at(P, C, axis k)` followed by lowering: P gets no nest of its
      own, C does, and P's whole part is emitted inside C's first k + 1
      loops, ahead of C's own stores there.  Loop j of those k + 1 runs over
      the same range in P as in C, and P's index variable j is renamed to
      C's. */
  lemma ComputeAtPlacement(s: Sched, p: Stage, c: Stage)
    requires ValidSched(s) && p in s.stages && c in s.stages
    requires p.name in s.relocation && s.relocation[p.name].0 == c.name
    ensures p.name !in NestNames(Lower(s)) && c.name in NestNames(Lower(s))
    ensures TargetDepth(s.relocation[p.name].1, c) == s.relocation[p.name].1 + 1 <= |p.axes|
    ensures var d := TargetDepth(s.relocation[p.name].1, c);
      forall x :: x in Relocated(p, c, d) ==> x in Within(LowerStage(s, c), d)
    ensures var d := TargetDepth(s.relocation[p.name].1, c);
      forall j :: 0 <= j < d ==>
        p.axes[j].bound == c.axes[j].bound &&
        RenameIndex(p.axes[j].name, AxisNames(p.axes[..d]), AxisNames(c.axes[..d])) == c.axes[j].name
  {
    RelocationAligned(s, p, c);
    var d := TargetDepth(s.relocation[p.name].1, c);
    LowerEmitsEachOnce(s, p.name);
    LowerEmitsEachOnce(s, c.name);
    SplicedWithin(s, p, c, d);
    RenamedAxes(p, c, d);
  }

  /** With P computed at C's axis k, a store P writes at level l is emitted,
      with C's index variables, inside the first `max(l, k + 1) - (k + 1)`
      loops of P's part: ahead of P's remaining loops when l <= k + 1, at
      its own depth inside them otherwise. */
  lemma ComputeAtStore(s: Sched, p: Stage, c: Stage, l: nat, st: Store)
    requires ValidSched(s) && p in s.stages && c in s.stages
    requires p.name in s.relocation && s.relocation[p.name].0 == c.name
    requires Placed(l, st) in p.body
    ensures var d := TargetDepth(s.relocation[p.name].1, c);
      d <= |p.axes| && d <= |c.axes| &&
      Do(RenameStore(st, AxisNames(p.axes[..d]), AxisNames(c.axes[..d])))
        in Within(Relocated(p, c, d), Max(l, d) - d)
  {
    RelocationAligned(s, p, c);
    StoreAtTarget(p, c, s.relocation[p.name].1, l, st);
  }

  /** The same, for a producer aligned with its consumer down to axis k. */
  lemma StoreAtTarget(p: Stage, c: Stage, k: nat, l: nat, st: Store)
    requires ValidStage(p) && TargetDepth(k, c) == k + 1 <= |p.axes| && Placed(l, st) in p.body
    ensures var d := TargetDepth(k, c);
      d <= |p.axes| && d <= |c.axes| &&
      Do(RenameStore(st, AxisNames(p.axes[..d]), AxisNames(c.axes[..d])))
        in Within(Relocated(p, c, d), Max(l, d) - d)
  {
    LevelWithin(p, l, st);
    RelocatedStoreDepth(p, c, k + 1, l, st);
  }

  /** A valid stage writes its stores no deeper than its own loops. */
  lemma LevelWithin(p: Stage, l: nat, st: Store)
    requires ValidStage(p) && Placed(l, st) in p.body
    ensures l <= |p.axes|
  {
    var i :| 0 <= i < |p.body| && p.body[i] == Placed(l, st);
    assert p.body[i].level <= |p.axes|;
  }

  /** The producer of a relocation in a valid schedule is aligned with its
      consumer down to the recorded axis k, so it is spliced at depth k + 1. */
  lemma RelocationAligned(s: Sched, p: Stage, c: Stage)
    requires ValidSched(s) && p in s.stages && c in s.stages
    requires p.name in s.relocation && s.relocation[p.name].0 == c.name
    ensures Aligned(p, c, s.relocation[p.name].1)
    ensures TargetDepth(s.relocation[p.name].1, c) == s.relocation[p.name].1 + 1 <= |p.axes|
    ensures ValidStage(p)
  {
    FindIn(s, p);
    FindIn(s, c);
    var i :| 0 <= i < |s.stages| && s.stages[i] == p;
  }

  /** Everything the producer contributes at depth d lies inside the
      consumer's first d loops. */
  lemma SplicedWithin(s: Sched, p: Stage, c: Stage, d: nat)
    requires p in s.stages && p.name in s.relocation && s.relocation[p.name].0 == c.name
    requires TargetDepth(s.relocation[p.name].1, c) == d && d <= |c.axes|
    ensures forall x :: x in Relocated(p, c, d) ==> x in Within(LowerStage(s, c), d)
  {
    NestLoops(c.axes, c.body, Splices(s, c), d);
    assert Splices(s, c)[d] == Gather(s.stages, s.relocation, c, d);
    forall x | x in Relocated(p, c, d)
      ensures x in Within(LowerStage(s, c), d)
    {
      GatherHas(s.stages, s.relocation, c, d, p, x);
    }
  }

  /** Aligned producer and consumer: each of the first d loops has the same
      range in both, and the producer's index variable is renamed to the
      consumer's. */
  lemma RenamedAxes(p: Stage, c: Stage, d: nat)
    requires 0 < d && Aligned(p, c, d - 1) && ValidStage(p)
    ensures forall j :: 0 <= j < d ==>
      p.axes[j].bound == c.axes[j].bound &&
      RenameIndex(p.axes[j].name, AxisNames(p.axes[..d]), AxisNames(c.axes[..d])) == c.axes[j].name
  {
    forall j | 0 <= j < d
      ensures RenameIndex(p.axes[j].name, AxisNames(p.axes[..d]), AxisNames(c.axes[..d])) == c.axes[j].name
    {
      RenameAligned(p, c, d, j);
    }
  }

  /** In a valid schedule a stage of the schedule is the one its name finds. */
  lemma FindIn(s: Sched, st: Stage)
    requires ValidSched(s) && st in s.stages
    ensures FindStage(s, st.name) == Some(st)
  {
    var i :| 0 <= i < |s.stages| && s.stages[i] == st;
    IndexOfDistinct(StageNames(s.stages), i);
  }
}
