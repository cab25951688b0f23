/** Scope construction while tracing a kernel.

    `if_`, `elif_`, `else_`, `for_` and `while_` are context managers: each
    opens a scope on entry and closes it on exit.  An `if_` starts a chain that
    later `elif_`s and an `else_` at the same nesting level extend; the tracer
    keeps the chains that can still be extended on a stack of pending frames.
    When a scope exits, every chain started inside it is popped, so an inner
    `if_` left without `else_` can no longer capture an `else_` written after
    its enclosing scope.  `break_` is not supported and fails the trace.  Once
    the trace has failed, nothing further is recorded. */
module Scope {
  import opened Wrappers

  datatype TraceError = ElifWithoutIf | ElseWithoutIf | BreakUnsupported

  /** A chain that may still take an `elif_` or `else_`: the nesting depth its
      `if_` was written at and its index in the chain table. */
  datatype Frame = Frame(depth: nat, chain: nat)

  /** A traced chain: its number of conditional branches (the `if_` and each
      `elif_`) and whether an `else_` closed it. */
  datatype Chain = Chain(branches: nat, closed: bool)

  /** What the tracer knows: the current nesting depth, the pending frames
      (top last), the chains traced so far and the error that failed the
      trace, if any. */
  datatype TraceState = TraceState(depth: nat, pending: seq<Frame>, chains: seq<Chain>,
                                   error: Option<TraceError>)

  /** `frames` without its top frames at depth `d` or deeper. */
  function PopFrom(frames: seq<Frame>, d: nat): (r: seq<Frame>)
    ensures |r| <= |frames| && r == frames[..|r|]
    ensures r == [] || r[|r| - 1].depth < d
    ensures forall k :: |r| <= k < |frames| ==> frames[k].depth >= d
  {
    if frames == [] || frames[|frames| - 1].depth < d then frames
    else PopFrom(frames[..|frames| - 1], d)
  }

  /** Frame depths and chain indices strictly increase from the bottom of the
      stack. */
  predicate Increasing(frames: seq<Frame>)
  {
    forall j, k :: 0 <= j < k < |frames| ==>
      frames[j].depth < frames[k].depth && frames[j].chain < frames[k].chain
  }

  /** Pending frames were written at the current level or an enclosing one,
      are ordered, and refer to chains that are still open. */
  predicate ValidState(s: TraceState)
  {
    Increasing(s.pending) &&
    forall k :: 0 <= k < |s.pending| ==>
      s.pending[k].depth <= s.depth && s.pending[k].chain < |s.chains|
      && !s.chains[s.pending[k].chain].closed
  }

  function Init(): TraceState
  {
    TraceState(0, [], [], None)
  }

  /** The top frame is a chain started at the current level. */
  predicate CanExtend(s: TraceState)
  {
    s.pending != [] && s.pending[|s.pending| - 1].depth == s.depth
  }

  /** Enter `if_`: chains written earlier at this level can no longer be
      extended; a new chain with one branch starts and becomes the top frame. */
  function OnIf(s: TraceState): TraceState
  {
    if s.error.Some? then s
    else TraceState(s.depth + 1, PopFrom(s.pending, s.depth) + [Frame(s.depth, |s.chains|)],
                    s.chains + [Chain(1, false)], None)
  }

  /** Enter `elif_`: the chain of the top frame gains a branch. */
  function OnElif(s: TraceState): TraceState
  {
    if s.error.Some? then s
    else if !CanExtend(s) then s.(error := Some(ElifWithoutIf))
    else
      var c := s.pending[|s.pending| - 1].chain;
      if c < |s.chains| then
        s.(depth := s.depth + 1, chains := s.chains[c := Chain(s.chains[c].branches + 1, false)])
      else s.(depth := s.depth + 1)
  }

  /** Enter `else_`: the chain of the top frame is closed and its frame
      popped. */
  function OnElse(s: TraceState): TraceState
  {
    if s.error.Some? then s
    else if !CanExtend(s) then s.(error := Some(ElseWithoutIf))
    else
      var c := s.pending[|s.pending| - 1].chain;
      var rest := s.pending[..|s.pending| - 1];
      if c < |s.chains| then
        s.(depth := s.depth + 1, pending := rest,
           chains := s.chains[c := Chain(s.chains[c].branches, true)])
      else s.(depth := s.depth + 1, pending := rest)
  }

  /** Enter `for_` or `while_`. */
  function OnLoop(s: TraceState): TraceState
  {
    if s.error.Some? then s else s.(depth := s.depth + 1)
  }

  /** Leave the innermost scope: every chain started inside it is popped. */
  function OnExit(s: TraceState): TraceState
    requires s.depth > 0
  {
    if s.error.Some? then s
    else s.(depth := s.depth - 1, pending := PopFrom(s.pending, s.depth))
  }

  /** `break_()`: rejected wherever it appears. */
  function OnBreak(s: TraceState): TraceState
  {
    if s.error.Some? then s else s.(error := Some(BreakUnsupported))
  }

  // ---------------------------------------------------------------------
  // The stack invariant

  /** On an ordered stack, popping from depth d keeps exactly the frames
      below depth d. */
  lemma PopFromKeepsShallower(frames: seq<Frame>, d: nat, k: nat)
    requires Increasing(frames) && k < |frames|
    ensures k < |PopFrom(frames, d)| <==> frames[k].depth < d
  {
    var r := PopFrom(frames, d);
    if k < |r| {
      assert r[k] == frames[k];
      if k < |r| - 1 {
        assert frames[k].depth < frames[|r| - 1].depth;
      }
    }
  }

  lemma IfKeepsValid(s: TraceState)
    requires ValidState(s)
    ensures ValidState(OnIf(s))
    ensures s.error.None? ==> forall k :: 0 <= k < |OnIf(s).pending| - 1 ==> OnIf(s).pending[k].depth < s.depth
  {
    if s.error.None? {
      var r := PopFrom(s.pending, s.depth);
      var cs := s.chains + [Chain(1, false)];
      PoppedFrames(s);
      forall k | 0 <= k < |r|
        ensures r[k].chain < |s.chains| && cs[r[k].chain] == s.chains[r[k].chain]
      {
      }
      PushFrame(r, Frame(s.depth, |s.chains|), cs, s.depth + 1);
      assert OnIf(s) == TraceState(s.depth + 1, r + [Frame(s.depth, |s.chains|)], cs, None);
    }
  }

  /** The frames left after popping from the current depth are a prefix of
      the stack, lie strictly outside it, and stay valid. */
  lemma PoppedFrames(s: TraceState)
    requires ValidState(s)
    ensures Increasing(PopFrom(s.pending, s.depth))
    ensures forall k :: 0 <= k < |PopFrom(s.pending, s.depth)| ==>
      PopFrom(s.pending, s.depth)[k] == s.pending[k] && PopFrom(s.pending, s.depth)[k].depth < s.depth
      && s.pending[k].chain < |s.chains| && !s.chains[s.pending[k].chain].closed
  {
    var r := PopFrom(s.pending, s.depth);
    forall k | 0 <= k < |r|
      ensures r[k].depth < s.depth && r[k] == s.pending[k]
    {
      PopFromKeepsShallower(s.pending, s.depth, k);
    }
  }

  /** Pushing a frame for an open chain, deeper and newer than every frame
      below it, keeps the state valid. */
  lemma PushFrame(r: seq<Frame>, f: Frame, cs: seq<Chain>, depth: nat)
    requires Increasing(r) && f.depth < depth && f.chain < |cs| && !cs[f.chain].closed
    requires forall k :: 0 <= k < |r| ==>
      r[k].depth < f.depth && r[k].chain < f.chain && !cs[r[k].chain].closed
    ensures ValidState(TraceState(depth, r + [f], cs, None))
    ensures forall k :: 0 <= k < |r| ==> (r + [f])[k].depth < f.depth
  {
    var p := r + [f];
    forall j, k | 0 <= j < k < |p|
      ensures p[j].depth < p[k].depth && p[j].chain < p[k].chain
    {
      assert p[j] == r[j];
      if k < |r| {
        assert p[k] == r[k];
      }
    }
    forall k | 0 <= k < |p|
      ensures p[k].depth <= depth && p[k].chain < |cs| && !cs[p[k].chain].closed
    {
      if k < |r| {
        assert p[k] == r[k];
      }
    }
  }

  lemma ElifKeepsValid(s: TraceState)
    requires ValidState(s)
    ensures ValidState(OnElif(s))
  {
  }

  lemma ElseKeepsValid(s: TraceState)
    requires ValidState(s)
    ensures ValidState(OnElse(s))
  {
    if s.error.None? && CanExtend(s) {
      var n := |s.pending|;
      var c := s.pending[n - 1].chain;
      var t := OnElse(s);
      forall k | 0 <= k < |t.pending|
        ensures t.pending[k].chain != c
      {
        assert t.pending[k] == s.pending[k];
      }
    }
  }

  lemma ExitKeepsValid(s: TraceState)
    requires ValidState(s) && s.depth > 0
    ensures ValidState(OnExit(s))
    ensures s.error.None? ==> forall k :: 0 <= k < |OnExit(s).pending| ==> OnExit(s).pending[k].depth < s.depth
  {
    if s.error.None? {
      var r := PopFrom(s.pending, s.depth);
      forall k | 0 <= k < |r|
        ensures r[k].depth < s.depth
      {
        PopFromKeepsShallower(s.pending, s.depth, k);
      }
    }
  }

  /** A loop scope pushes no chain and closes none. */
  lemma LoopKeepsValid(s: TraceState)
    requires ValidState(s)
    ensures ValidState(OnLoop(s))
    ensures OnLoop(s).pending == s.pending && OnLoop(s).chains == s.chains
  {
  }

  /** `break_` fails the trace and keeps the stack well formed. */
  lemma BreakKeepsValid(s: TraceState)
    requires ValidState(s)
    ensures ValidState(OnBreak(s))
    ensures OnBreak(s).error.Some?
  {
  }

  /** Once the trace has failed, every further step leaves the state, and so
      the error, as it is. */
  lemma ErrorSticks(s: TraceState)
    requires s.error.Some?
    ensures OnIf(s) == s && OnElif(s) == s && OnElse(s) == s
    ensures OnLoop(s) == s && OnBreak(s) == s
    ensures s.depth > 0 ==> OnExit(s) == s
  {
  }

  /** The trace of `if_(A) { if_(B) { ... } } else_ { ... }`, one step per
      line: the inner chain is popped when the outer `if_` exits, so the
      `else_` closes the outer chain (0) and the inner chain (1) is left
      without an else. */
  lemma IfScopeTrace()
    ensures OnIf(Init()) == TraceState(1, [Frame(0, 0)], [Chain(1, false)], None)
    ensures OnIf(TraceState(1, [Frame(0, 0)], [Chain(1, false)], None))
         == TraceState(2, [Frame(0, 0), Frame(1, 1)], [Chain(1, false), Chain(1, false)], None)
    ensures OnExit(TraceState(2, [Frame(0, 0), Frame(1, 1)], [Chain(1, false), Chain(1, false)], None))
         == TraceState(1, [Frame(0, 0), Frame(1, 1)], [Chain(1, false), Chain(1, false)], None)
    ensures OnExit(TraceState(1, [Frame(0, 0), Frame(1, 1)], [Chain(1, false), Chain(1, false)], None))
         == TraceState(0, [Frame(0, 0)], [Chain(1, false), Chain(1, false)], None)
    ensures OnElse(TraceState(0, [Frame(0, 0)], [Chain(1, false), Chain(1, false)], None))
         == TraceState(1, [], [Chain(1, true), Chain(1, false)], None)
    ensures OnExit(TraceState(1, [], [Chain(1, true), Chain(1, false)], None))
         == TraceState(0, [], [Chain(1, true), Chain(1, false)], None)
  {
    IfScopeEnter();
    IfScopeLeave();
  }

  /** The two `if_`s and the exit from the inner one. */
  lemma IfScopeEnter()
    ensures OnIf(Init()) == TraceState(1, [Frame(0, 0)], [Chain(1, false)], None)
    ensures OnIf(TraceState(1, [Frame(0, 0)], [Chain(1, false)], None))
         == TraceState(2, [Frame(0, 0), Frame(1, 1)], [Chain(1, false), Chain(1, false)], None)
    ensures OnExit(TraceState(2, [Frame(0, 0), Frame(1, 1)], [Chain(1, false), Chain(1, false)], None))
         == TraceState(1, [Frame(0, 0), Frame(1, 1)], [Chain(1, false), Chain(1, false)], None)
  {
  }

  /** The exit from the outer `if_`, its `else_` and the exit from that. */
  lemma IfScopeLeave()
    ensures OnExit(TraceState(1, [Frame(0, 0), Frame(1, 1)], [Chain(1, false), Chain(1, false)], None))
         == TraceState(0, [Frame(0, 0)], [Chain(1, false), Chain(1, false)], None)
    ensures OnElse(TraceState(0, [Frame(0, 0)], [Chain(1, false), Chain(1, false)], None))
         == TraceState(1, [], [Chain(1, true), Chain(1, false)], None)
    ensures OnExit(TraceState(1, [], [Chain(1, true), Chain(1, false)], None))
         == TraceState(0, [], [Chain(1, true), Chain(1, false)], None)
  {
    assert [Frame(0, 0), Frame(1, 1)][..1] == [Frame(0, 0)];
  }

  /** The trace of `if_ / elif_ / else_` at one level: a single chain of two
      conditional branches, closed by the else. */
  lemma IfElifElseTrace()
    ensures OnIf(Init()) == TraceState(1, [Frame(0, 0)], [Chain(1, false)], None)
    ensures OnExit(TraceState(1, [Frame(0, 0)], [Chain(1, false)], None))
         == TraceState(0, [Frame(0, 0)], [Chain(1, false)], None)
    ensures OnElif(TraceState(0, [Frame(0, 0)], [Chain(1, false)], None))
         == TraceState(1, [Frame(0, 0)], [Chain(2, false)], None)
    ensures OnExit(TraceState(1, [Frame(0, 0)], [Chain(2, false)], None))
         == TraceState(0, [Frame(0, 0)], [Chain(2, false)], None)
    ensures OnElse(TraceState(0, [Frame(0, 0)], [Chain(2, false)], None))
         == TraceState(1, [], [Chain(2, true)], None)
  {
  }

  /** An `else_` after a loop whose inner chain was popped on exit has nothing
      to extend and fails the trace. */
  lemma ElseAfterLoopTrace()
    ensures OnLoop(Init()) == TraceState(1, [], [], None)
    ensures OnIf(TraceState(1, [], [], None)) == TraceState(2, [Frame(1, 0)], [Chain(1, false)], None)
    ensures OnExit(TraceState(2, [Frame(1, 0)], [Chain(1, false)], None))
         == TraceState(1, [Frame(1, 0)], [Chain(1, false)], None)
    ensures OnExit(TraceState(1, [Frame(1, 0)], [Chain(1, false)], None))
         == TraceState(0, [], [Chain(1, false)], None)
    ensures OnElse(TraceState(0, [], [Chain(1, false)], None)).error == Some(ElseWithoutIf)
  {
  }

  /** `break_()` fails the trace inside `for_` or `while_`, at any nesting
      depth, and nothing traced afterwards changes that. */
  lemma BreakFails(s: TraceState)
    requires s.error.None?
    ensures OnBreak(s).error.Some?
    ensures OnExit(OnBreak(OnLoop(s))).error.Some?
    ensures OnExit(OnExit(OnBreak(OnIf(OnLoop(s))))).error.Some?
    ensures OnExit(OnExit(OnExit(OnBreak(OnIf(OnLoop(OnLoop(s))))))).error.Some?
  {
  }

  // ---------------------------------------------------------------------
  // The tracer

  class Tracer {
    var depth: nat
    var pending: seq<Frame>
    var chains: seq<Chain>
    var error: Option<TraceError>

    function State(): TraceState
      reads this
    {
      TraceState(depth, pending, chains, error)
    }

    ghost predicate Valid()
      reads this
    {
      ValidState(State())
    }

    constructor ()
      ensures Valid() && State() == Init()
    {
      depth, pending, chains, error := 0, [], [], None;
    }

    /** Enter `if_`; returns the index of the new chain. */
    method If() returns (id: nat)
      requires Valid()
      modifies this
      ensures Valid() && State() == OnIf(old(State()))
      ensures old(error).None? ==> id == old(|chains|) && chains[id] == Chain(1, false)
    {
      IfKeepsValid(State());
      id := |chains|;
      if error.None? {
        pending := PopFrom(pending, depth) + [Frame(depth, id)];
        chains := chains + [Chain(1, false)];
        depth := depth + 1;
      }
    }

    /** Enter `elif_`. */
    method Elif()
      requires Valid()
      modifies this
      ensures Valid() && State() == OnElif(old(State()))
    {
      ElifKeepsValid(State());
      if error.Some? {
      } else if !CanExtend(State()) {
        error := Some(ElifWithoutIf);
      } else {
        var c := pending[|pending| - 1].chain;
        chains := chains[c := Chain(chains[c].branches + 1, false)];
        depth := depth + 1;
      }
    }

    /** Enter `else_`. */
    method Else()
      requires Valid()
      modifies this
      ensures Valid() && State() == OnElse(old(State()))
    {
      ElseKeepsValid(State());
      if error.Some? {
      } else if !CanExtend(State()) {
        error := Some(ElseWithoutIf);
      } else {
        var c := pending[|pending| - 1].chain;
        chains := chains[c := Chain(chains[c].branches, true)];
        pending := pending[..|pending| - 1];
        depth := depth + 1;
      }
    }

    /** Enter `for_` or `while_`. */
    method Loop()
      requires Valid()
      modifies this
      ensures Valid() && State() == OnLoop(old(State()))
    {
      if error.None? {
        depth := depth + 1;
      }
    }

    /** Leave the innermost scope. */
    method Exit()
      requires Valid() && depth > 0
      modifies this
      ensures Valid() && State() == OnExit(old(State()))
    {
      ExitKeepsValid(State());
      if error.None? {
        pending := PopFrom(pending, depth);
        depth := depth - 1;
      }
    }

    /** `break_()`. */
    method Break()
      requires Valid()
      modifies this
      ensures Valid() && State() == OnBreak(old(State()))
    {
      if error.None? {
        error := Some(BreakUnsupported);
      }
    }
  }

  /** `if_(A) { if_(B) { ... } } else_ { ... }` traced on a tracer. */
  method IfScopeRegression() returns (t: Tracer)
    ensures t.State() == TraceState(0, [], [Chain(1, true), Chain(1, false)], None)
  {
    IfScopeTrace();
    t := new Tracer();
    var a := t.If();
    var b := t.If();
    t.Exit();
    t.Exit();
    t.Else();
    t.Exit();
  }

  // ---------------------------------------------------------------------
  // Executing a chain

  /** The branch of a chain that runs, given the values of its conditions in
      order: the first whose condition holds, else the `else_` branch (index
      |conds|) if there is one, else none. */
  function Select(conds: seq<bool>, hasElse: bool): (r: Option<nat>)
    ensures r.Some? ==> r.value <= |conds|
    ensures r.Some? && r.value < |conds| ==> conds[r.value]
    ensures r.Some? ==> forall j :: 0 <= j < r.value ==> !conds[j]
    ensures r.Some? && r.value == |conds| ==> hasElse
    ensures r.None? <==> !hasElse && forall j :: 0 <= j < |conds| ==> !conds[j]
  {
    if conds == [] then (if hasElse then Some(0) else None)
    else if conds[0] then Some(0)
    else match Select(conds[1..], hasElse)
      case None => None
      case Some(k) => Some(k + 1)
  }

  /** A traced chain runs at most one of its branches: one of its
      conditional branches, or its `else_` branch when an `else_` closed it. */
  lemma ChainRuns(c: Chain, conds: seq<bool>)
    requires |conds| == c.branches
    ensures Select(conds, c.closed).Some? ==>
      Select(conds, c.closed).value < c.branches + (if c.closed then 1 else 0)
  {
  }

  /** `if_(a > 5) A[0] = 5; elif_(a > 3) A[0] = 3; else_ A[0] = 0`, and the same
      chain without the else, which leaves A[0] unchanged when neither
      condition holds. */
  lemma CondChainScenario(a: int)
    ensures Select([a > 5, a > 3], true) == Some(if a > 5 then 0 else if a > 3 then 1 else 2)
    ensures Select([a > 5, a > 3], false) == if a > 5 then Some(0) else if a > 3 then Some(1) else None
  {
  }

  /** In the regression kernel the outer condition holds and the inner one
      does not: with the else bound to the outer chain no branch writes the
      result; bound to the inner chain, the else would have run. */
  lemma IfScopeOutcome()
    ensures Select([true], true) == Some(0)
    ensures Select([false], false) == None
    ensures Select([false], true) == Some(1)
  {
  }
}
