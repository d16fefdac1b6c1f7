/** Systems and their dispatcher (ecs/src/system.rs). A system is a value of
    type `S` that carries both which concrete system it is and its own state;
    the methods of the `System` trait are the functions of a `Behaviour`, so a
    call through `Box<dyn System>` is a call of one of those functions on the
    boxed value. A system acts on the world, here a value of type `W` threaded
    through every call, and receives the frame time as an opaque value of type
    `D`. */
module EcsSystem {
  import opened EcsCore

  /** What one call of a system hook leaves behind: the system's new state, the
      world after the call, and the hook's result. */
  datatype Step<S, W> = Step(system: S, world: W, result: EcsResult<()>)

  /** The `System` trait: `run` and `initialize` (whose default is
      `DefaultInitialize`), each allowed to change the system and the world. */
  datatype Behaviour<!S, !W, !D> = Behaviour(run: (S, W, D) -> Step<S, W>, initialize: (S, W) -> Step<S, W>)

  /** One call of `run` during a tick: which system (its position in the
      dispatcher), with which frame time, and what it returned. */
  datatype RunCall<D> = RunCall(index: nat, deltaTime: D, result: EcsResult<()>)

  /** The default `initialize` hook: succeeds and touches neither the system
      nor the world. */
  function DefaultInitialize<S, W>(s: S, w: W): (r: Step<S, W>)
    ensures r.result.Ok? && r.system == s && r.world == w
  {
    Step(s, w, Ok(()))
  }

  /** The default `cleanup` hook: succeeds and touches neither the system nor
      the world. */
  function DefaultCleanup<S, W>(s: S, w: W): (r: Step<S, W>)
    ensures r.result.Ok? && r.system == s && r.world == w
  {
    Step(s, w, Ok(()))
  }

  /** `add_system` on the list of systems: run `initialize`, and push the
      initialized system only if it succeeded. The world keeps whatever the
      hook did to it either way. */
  function AddSystemOutcome<S, W, D>(b: Behaviour<S, W, D>, systems: seq<S>, s: S, w: W): (r: (seq<S>, W, EcsResult<()>))
    ensures |r.0| == if r.2.Ok? then |systems| + 1 else |systems|
    ensures r.0[..|systems|] == systems
    ensures r.1 == b.initialize(s, w).world
  {
    var init := b.initialize(s, w);
    if init.result.Err? then (systems, init.world, init.result)
    else (systems + [init.system], init.world, Ok(()))
  }

  /** The outcome of a tick: the systems and the world afterwards, the result of
      `run_systems`, and the `run` calls made, in order. */
  datatype Outcome<S, W, D> = Outcome(systems: seq<S>, world: W, result: EcsResult<()>, calls: seq<RunCall<D>>)

  /** `run_systems` from position `i` on: run each system in turn on the world
      the previous one left, and stop at the first error. No system is added
      or dropped. */
  function Tick<S, W, D>(b: Behaviour<S, W, D>, systems: seq<S>, w: W, dt: D, i: nat): (r: Outcome<S, W, D>)
    decreases |systems| - i
    ensures |r.systems| == |systems|
  {
    if i >= |systems| then Outcome(systems, w, Ok(()), [])
    else
      var step := b.run(systems[i], w, dt);
      var call := RunCall(i, dt, step.result);
      if step.result.Err? then Outcome(systems[i := step.system], step.world, step.result, [call])
      else
        var rest := Tick(b, systems[i := step.system], step.world, dt, i + 1);
        Outcome(rest.systems, rest.world, rest.result, [call] + rest.calls)
  }

  /** The calls of a tick are made at positions i, i+1, ... in order, at most
      one per remaining system, each with the tick's frame time. */
  lemma {:induction false} TickCallsInOrder<S, W, D>(b: Behaviour<S, W, D>, systems: seq<S>, w: W, dt: D, i: nat)
    requires i <= |systems|
    ensures var r := Tick(b, systems, w, dt, i);
      && i + |r.calls| <= |systems|
      && forall k :: 0 <= k < |r.calls| ==> r.calls[k].index == i + k && r.calls[k].deltaTime == dt
    decreases |systems| - i
  {
    if i < |systems| {
      var step := b.run(systems[i], w, dt);
      if step.result.Ok? {
        var rest := Tick(b, systems[i := step.system], step.world, dt, i + 1);
        TickCallsInOrder(b, systems[i := step.system], step.world, dt, i + 1);
        var r := Tick(b, systems, w, dt, i);
        assert r.calls == [RunCall(i, dt, step.result)] + rest.calls;
        assert forall k :: 1 <= k < |r.calls| ==> r.calls[k] == rest.calls[k - 1];
      }
    }
  }

  /** A tick's outcome with `calls` made before it. */
  function Prefixed<S, W, D>(calls: seq<RunCall<D>>, o: Outcome<S, W, D>): Outcome<S, W, D>
  {
    Outcome(o.systems, o.world, o.result, calls + o.calls)
  }

  /** One step of `run_systems`: running the system at position `i` moves the
      call into the prefix; on an error the tick ends right there. */
  lemma TickStep<S, W, D>(b: Behaviour<S, W, D>, calls: seq<RunCall<D>>, systems: seq<S>, w: W, dt: D, i: nat)
    requires i < |systems|
    ensures var step := b.run(systems[i], w, dt);
      var calls' := calls + [RunCall(i, dt, step.result)];
      Prefixed(calls, Tick(b, systems, w, dt, i)) ==
        if step.result.Err? then Outcome(systems[i := step.system], step.world, step.result, calls')
        else Prefixed(calls', Tick(b, systems[i := step.system], step.world, dt, i + 1))
  {
    var step := b.run(systems[i], w, dt);
    var call := RunCall(i, dt, step.result);
    var rest := Tick(b, systems[i := step.system], step.world, dt, i + 1);
    assert calls + ([call] + rest.calls) == (calls + [call]) + rest.calls;
  }

  /** Every call in `calls` returned Ok. */
  ghost predicate AllOk<D>(calls: seq<RunCall<D>>)
  {
    forall k :: 0 <= k < |calls| ==> calls[k].result.Ok?
  }

  lemma AllOkCons<D>(c: RunCall<D>, cs: seq<RunCall<D>>)
    ensures AllOk([c] + cs) <==> c.result.Ok? && AllOk(cs)
  {
    var s := [c] + cs;
    assert s[0] == c;
    assert forall k :: 0 <= k < |cs| ==> s[k + 1] == cs[k];
    if c.result.Ok? && AllOk(cs) {
      forall k | 0 <= k < |s|
        ensures s[k].result.Ok?
      {
        if k > 0 {
          assert s[k] == cs[k - 1];
        }
      }
    }
  }

  /** Fail-fast: a tick returns Ok exactly when every system from `i` on was
      run and each returned Ok. */
  lemma {:induction false} TickFailFast<S, W, D>(b: Behaviour<S, W, D>, systems: seq<S>, w: W, dt: D, i: nat)
    requires i <= |systems|
    ensures var r := Tick(b, systems, w, dt, i);
      r.result.Ok? <==> |r.calls| == |systems| - i && AllOk(r.calls)
    decreases |systems| - i
  {
    if i < |systems| {
      var step := b.run(systems[i], w, dt);
      var call := RunCall(i, dt, step.result);
      if step.result.Ok? {
        var rest := Tick(b, systems[i := step.system], step.world, dt, i + 1);
        TickFailFast(b, systems[i := step.system], step.world, dt, i + 1);
        AllOkCons(call, rest.calls);
      } else {
        assert Tick(b, systems, w, dt, i).calls[0] == call;
      }
    }
  }

  /** On an error, the last call made is the failing one, its error is the
      tick's result unchanged, and every call before it returned Ok. */
  lemma {:induction false} TickErrorIsLast<S, W, D>(b: Behaviour<S, W, D>, systems: seq<S>, w: W, dt: D, i: nat)
    requires i <= |systems|
    ensures var r := Tick(b, systems, w, dt, i);
      r.result.Err? ==>
        && |r.calls| > 0
        && r.calls[|r.calls| - 1].result == r.result
        && AllOk(r.calls[..|r.calls| - 1])
    decreases |systems| - i
  {
    if i < |systems| {
      var step := b.run(systems[i], w, dt);
      var call := RunCall(i, dt, step.result);
      if step.result.Ok? {
        var rest := Tick(b, systems[i := step.system], step.world, dt, i + 1);
        TickErrorIsLast(b, systems[i := step.system], step.world, dt, i + 1);
        if rest.result.Err? {
          var r := Tick(b, systems, w, dt, i);
          assert r.calls == [call] + rest.calls;
          assert r.calls[..|r.calls| - 1] == [call] + rest.calls[..|rest.calls| - 1];
          AllOkCons(call, rest.calls[..|rest.calls| - 1]);
        }
      } else {
        assert AllOk(Tick(b, systems, w, dt, i).calls[..0]);
      }
    }
  }

  /** A tick changes no system it did not run: those before `i` and those after
      the failing one keep their state. */
  lemma {:induction false} TickLeavesOthers<S, W, D>(b: Behaviour<S, W, D>, systems: seq<S>, w: W, dt: D, i: nat)
    requires i <= |systems|
    ensures var r := Tick(b, systems, w, dt, i);
      forall k :: 0 <= k < |systems| && (k < i || k >= i + |r.calls|) ==> r.systems[k] == systems[k]
    decreases |systems| - i
  {
    if i < |systems| {
      var step := b.run(systems[i], w, dt);
      if step.result.Ok? {
        TickLeavesOthers(b, systems[i := step.system], step.world, dt, i + 1);
      }
    }
  }

  /** No rollback: when the system at position `i` fails, the tick ends with
      the world that failing call left, which already holds the effects of
      every earlier system. */
  lemma TickKeepsEffectsOnError<S, W, D>(b: Behaviour<S, W, D>, systems: seq<S>, w: W, dt: D, i: nat)
    requires i < |systems| && b.run(systems[i], w, dt).result.Err?
    ensures Tick(b, systems, w, dt, i).world == b.run(systems[i], w, dt).world
    ensures Tick(b, systems, w, dt, i).result == b.run(systems[i], w, dt).result
  {
  }

  /** A successful `add_system` appends the initialized system at the end, so
      the count grows by one; a failing one returns the hook's error and keeps
      the list as it was. */
  lemma AddSystemTransactional<S, W, D>(b: Behaviour<S, W, D>, systems: seq<S>, s: S, w: W)
    ensures var (systems', w', r) := AddSystemOutcome(b, systems, s, w);
      && (r.Ok? <==> b.initialize(s, w).result.Ok?)
      && (r.Err? ==> r == b.initialize(s, w).result)
      && w' == b.initialize(s, w).world
      && (r.Err? ==> systems' == systems)
      && (r.Ok? ==> systems' == systems + [b.initialize(s, w).system] && |systems'| == |systems| + 1)
  {
  }

  /** With the default `initialize`, `add_system` always succeeds and leaves the
      world alone. */
  lemma AddSystemWithDefaultInitialize<S, W, D>(b: Behaviour<S, W, D>, systems: seq<S>, s: S, w: W)
    requires b.initialize == DefaultInitialize
    ensures AddSystemOutcome(b, systems, s, w) == (systems + [s], w, Ok(()))
  {
  }

  /** The system of the dispatcher test: a name and the number of times it
      has run; its `run` counts and succeeds, and it keeps the default hooks. */
  datatype TestSystem = TestSystem(name: string, runCount: nat)

  function TestBehaviour<W, D>(): (b: Behaviour<TestSystem, W, D>)
    ensures b.initialize == DefaultInitialize
  {
    Behaviour((s: TestSystem, w: W, dt: D) => Step(s.(runCount := s.runCount + 1), w, Ok(())),
              DefaultInitialize)
  }

  /** The test system's `run` succeeds, keeps its name, raises its run count
      by one and leaves the world alone. */
  lemma TestRunCounts<W, D>(s: TestSystem, w: W, dt: D)
    ensures var step := TestBehaviour<W, D>().run(s, w, dt);
      && step.result == Ok(()) && step.world == w
      && step.system.name == s.name && step.system.runCount == s.runCount + 1
  {
  }

  /** A tick over test systems succeeds, runs every one of them once in order,
      and raises each run count by one. */
  lemma {:induction false} TestSystemsTick<W, D>(systems: seq<TestSystem>, w: W, dt: D, i: nat)
    requires i <= |systems|
    ensures var r := Tick(TestBehaviour(), systems, w, dt, i);
      && r.result == Ok(())
      && |r.calls| == |systems| - i
      && r.world == w
      && forall k :: 0 <= k < |systems| ==>
           r.systems[k] == if k < i then systems[k] else systems[k].(runCount := systems[k].runCount + 1)
    decreases |systems| - i
  {
    if i < |systems| {
      var s := systems[i];
      TestSystemsTick(systems[i := s.(runCount := s.runCount + 1)], w, dt, i + 1);
    }
  }

  /** The scenario of the dispatcher test: adding one fresh test system
      succeeds and leaves one system; a tick then succeeds, runs it once and
      leaves the world as it was. */
  lemma DispatcherScenario<W, D>(w: W, dt: D)
    ensures var (systems, w1, r1) := AddSystemOutcome(TestBehaviour<W, D>(), [], TestSystem("test_system", 0), w);
      var t := Tick(TestBehaviour<W, D>(), systems, w1, dt, 0);
      && r1 == Ok(()) && |systems| == 1 && w1 == w
      && t.result == Ok(()) && t.world == w
      && t.systems == [TestSystem("test_system", 1)]
  {
    var s := TestSystem("test_system", 0);
    AddSystemWithDefaultInitialize(TestBehaviour<W, D>(), [], s, w);
    TestSystemsTick([s], w, dt, 0);
    var t := Tick(TestBehaviour<W, D>(), [s], w, dt, 0);
    assert t.systems[0] == TestSystem("test_system", 1);
  }

  /** `SystemDispatcher`: the boxed systems, in the order they were added. The
      ghost `trace` records every `run` call the dispatcher has made. */
  class SystemDispatcher<S, W, D> {
    const behaviour: Behaviour<S, W, D>
    var systems: seq<S>
    ghost var trace: seq<RunCall<D>>

    /** `SystemDispatcher::new`: no systems, nothing run yet. */
    constructor (behaviour: Behaviour<S, W, D>)
      ensures this.behaviour == behaviour
      ensures systems == [] && trace == []
      ensures SystemCount() == 0
    {
      this.behaviour := behaviour;
      systems := [];
      trace := [];
    }

    /** `system_count`. */
    function SystemCount(): nat
      reads this
    {
      |systems|
    }

    /** `add_system`: `initialize` first; the `?` returns its error before the
        push. */
    method AddSystem(s: S, w: W) returns (w': W, r: EcsResult<()>)
      modifies this
      ensures (systems, w', r) == AddSystemOutcome(behaviour, old(systems), s, w)
      ensures r.Err? ==> SystemCount() == old(SystemCount())
      ensures r.Ok? ==> SystemCount() == old(SystemCount()) + 1
      ensures trace == old(trace)
    {
      AddSystemTransactional(behaviour, systems, s, w);
      var init := behaviour.initialize(s, w);
      w' := init.world;
      if init.result.Err? {
        return w', init.result;
      }
      systems := systems + [init.system];
      r := Ok(());
    }

    /** `run_systems`: each system in order, on the world the previous one
        left; the `?` returns the first error at once. The trace grows by
        exactly the calls of the tick, and the count never changes. */
    method RunSystems(w: W, dt: D) returns (w': W, r: EcsResult<()>)
      modifies this
      ensures var t := Tick(behaviour, old(systems), w, dt, 0);
        systems == t.systems && w' == t.world && r == t.result && trace == old(trace) + t.calls
      ensures SystemCount() == old(SystemCount())
    {
      var i := 0;
      w' := w;
      ghost var calls: seq<RunCall<D>> := [];
      while i < |systems|
        invariant i <= |systems| == |old(systems)|
        invariant trace == old(trace) + calls
        invariant Tick(behaviour, old(systems), w, dt, 0) == Prefixed(calls, Tick(behaviour, systems, w', dt, i))
        decreases |systems| - i
      {
        var step := behaviour.run(systems[i], w', dt);
        TickStep(behaviour, calls, systems, w', dt, i);
        ghost var call := RunCall(i, dt, step.result);
        systems := systems[i := step.system];
        w' := step.world;
        calls := calls + [call];
        trace := trace + [call];
        if step.result.Err? {
          return w', step.result;
        }
        i := i + 1;
      }
      r := Ok(());
    }
  }
}
