/** The drift-free periodic timer: each cycle sleeps until the next point of the
    grid `start + k * interval`, computed afresh from the clock, then performs its
    action; a cooperative stop flag is honoured after the action. Instants and
    durations are integer microseconds. */
module Timer {
  import opened Strings
  import opened DateTools

  /** The iteration budget: a number, or `float('inf')`, the default. */
  datatype Budget = Finite(n: int) | Infinite

  predicate Below(counter: int, budget: Budget) {
    budget.Infinite? || counter < budget.n
  }

  /** What `do()` performs: nothing (the base timer), or a call of a function
      with positional and keyword arguments (the function timer). */
  datatype Action<F, V> = Pass | Call(callee: F, args: seq<V>, kwargs: map<string, V>)

  /** The observable effects of a timer: a sleep of some microseconds, an action
      that completed, an action that raised an exception. */
  datatype Event<F, V> = Slept(micros: int) | Did(action: Action<F, V>) | Raised(action: Action<F, V>)

  /** One cycle's observation of the outside world: the clock reading, whether
      another thread calls `stop()` while the cycle runs, and whether the called
      function raises an exception in this cycle. */
  datatype Tick = Tick(now: int, stopRequested: bool, raises: bool)

  /** Whether the action fails in the cycle of this tick: `pass` never does, a
      called function does when it raises. */
  predicate Fails<F, V>(action: Action<F, V>, tick: Tick) {
    action.Call? && tick.raises
  }

  /** The wait computed at instant `now`: `rounder(now) + interval - now`. For a
      positive interval it is positive, at most one interval, and lands on the grid;
      for a negative interval it is negative (and so the timer does not sleep). */
  function Wait(now: int, interval: int, start: int): (w: int)
    requires interval != 0
    ensures interval > 0 ==> 0 < w <= interval && OnGrid(now + w, interval, start)
    ensures interval < 0 ==> w < 0
  {
    var r := Truncated(now, interval, start);
    GridStep(r, interval, start);
    r + interval - now
  }

  lemma GridStep(g: int, delta: int, start: int)
    requires delta != 0 && OnGrid(g, delta, start)
    ensures OnGrid(g + delta, delta, start)
  {
    OnGridIff(g, delta, start);
    var k :| g == GridPoint(start, delta, k);
    assert g + delta == GridPoint(start, delta, k + 1);
    OnGridIff(g + delta, delta, start);
  }

  /** `now + wait` is the first grid point strictly after `now`: the timer does not
      drift, whatever the time spent in earlier cycles. */
  lemma WaitReachesNextGridPoint(now: int, interval: int, start: int, g: int)
    requires interval > 0 && OnGrid(g, interval, start) && now < g
    ensures now + Wait(now, interval, start) <= g
  {
    var r := Truncated(now, interval, start);
    GridSpacing(r, g, interval, start);
  }

  /** The duration handed to `time.sleep`: never negative. */
  function SleepFor(now: int, interval: int, start: int): (d: int)
    requires interval != 0
    ensures d >= 0
    ensures interval > 0 ==> d == Wait(now, interval, start)
    ensures interval < 0 ==> d == 0
  {
    Max(0, Wait(now, interval, start))
  }

  /** What the action logs in the cycle of this tick. */
  function Outcome<F, V>(action: Action<F, V>, tick: Tick): (e: Event<F, V>)
    ensures e.Raised? <==> Fails(action, tick)
    ensures e.Did? <==> !Fails(action, tick)
    ensures e.action == action
  {
    if Fails(action, tick) then Raised(action) else Did(action)
  }

  /** The events of one cycle per tick: a sleep, then the action's outcome. */
  function CycleLog<F, V>(interval: int, start: int, action: Action<F, V>, ticks: seq<Tick>): (log: seq<Event<F, V>>)
    requires interval != 0
    ensures |log| == 2 * |ticks|
    decreases |ticks|
  {
    if ticks == [] then []
    else [Slept(SleepFor(ticks[0].now, interval, start)), Outcome(action, ticks[0])] + CycleLog(interval, start, action, ticks[1..])
  }

  /** The loop's state between cycles; `raised` records that the action raised,
      which ends `run` (and the thread) with that exception. */
  datatype RunState<F, V> = RunState(counter: int, iterations: Budget, stopFlag: bool, log: seq<Event<F, V>>, raised: bool)

  /** One cycle of `run`: sleep, act, and, when the action completed, count and
      zero the budget if the flag is up. An exception skips both. */
  function Step<F, V>(interval: int, start: int, action: Action<F, V>, st: RunState<F, V>, tick: Tick): (next: RunState<F, V>)
    requires interval != 0
    ensures next.log == st.log + [Slept(SleepFor(tick.now, interval, start)), Outcome(action, tick)]
    ensures next.stopFlag == (st.stopFlag || tick.stopRequested)
    ensures Fails(action, tick) ==> next.raised && next.counter == st.counter && next.iterations == st.iterations
    ensures !Fails(action, tick) ==>
              && next.raised == st.raised && next.counter == st.counter + 1
              && next.iterations == if next.stopFlag then Finite(0) else st.iterations
  {
    var flag := st.stopFlag || tick.stopRequested;
    var log := st.log + [Slept(SleepFor(tick.now, interval, start)), Outcome(action, tick)];
    if Fails(action, tick) then RunState(st.counter, st.iterations, flag, log, true)
    else RunState(st.counter + 1, if flag then Finite(0) else st.iterations, flag, log, st.raised)
  }

  /** `run` from a state, over the remaining clock readings. */
  function RunFrom<F, V>(interval: int, start: int, action: Action<F, V>, st: RunState<F, V>, ticks: seq<Tick>): RunState<F, V>
    requires interval != 0
    decreases |ticks|
  {
    if ticks == [] || st.raised || !Below(st.counter, st.iterations) then st
    else RunFrom(interval, start, action, Step(interval, start, action, st, ticks[0]), ticks[1..])
  }

  /** The index of the first cycle during which a stop is requested, or |ticks|. */
  function FirstStop(ticks: seq<Tick>): (i: nat)
    ensures i <= |ticks|
    ensures forall k :: 0 <= k < i ==> !ticks[k].stopRequested
    ensures i < |ticks| ==> ticks[i].stopRequested
    decreases |ticks|
  {
    if ticks == [] || ticks[0].stopRequested then 0 else 1 + FirstStop(ticks[1..])
  }

  /** The index of the first cycle whose action raises, or |ticks|; `pass` never raises. */
  function FirstFailure<F, V>(action: Action<F, V>, ticks: seq<Tick>): (i: nat)
    ensures i <= |ticks|
    ensures forall k :: 0 <= k < i ==> !Fails(action, ticks[k])
    ensures i < |ticks| ==> Fails(action, ticks[i])
    ensures action.Pass? ==> i == |ticks|
    decreases |ticks|
  {
    if ticks == [] || Fails(action, ticks[0]) then 0 else 1 + FirstFailure(action, ticks[1..])
  }

  /** How many cycles start: the least of the clock readings available, the cycles
      up to and including the one that sees the stop flag, those up to and
      including the first that raises, and the budget left. */
  function Cycles<F, V>(counter: int, iterations: Budget, stopFlag: bool, action: Action<F, V>, ticks: seq<Tick>): nat {
    var byStop := if stopFlag then 1 else FirstStop(ticks) + 1;
    var m := Min(Min(|ticks|, byStop), FirstFailure(action, ticks) + 1);
    if iterations.Infinite? then m else Min(m, Max(0, iterations.n - counter))
  }

  /** The cycle count after a first cycle that completes its action: one less,
      and none at all when that cycle saw the stop flag. */
  lemma CyclesAfterStep<F, V>(counter: int, iterations: Budget, stopFlag: bool, action: Action<F, V>, ticks: seq<Tick>)
    requires counter >= 0 && ticks != [] && Below(counter, iterations) && !Fails(action, ticks[0])
    ensures var flag := stopFlag || ticks[0].stopRequested;
            var m := Cycles(counter + 1, if flag then Finite(0) else iterations, flag, action, ticks[1..]);
            && Cycles(counter, iterations, stopFlag, action, ticks) == m + 1
            && (flag ==> m == 0)
            && FirstFailure(action, ticks) == FirstFailure(action, ticks[1..]) + 1
            && (!flag ==> FirstStop(ticks) == FirstStop(ticks[1..]) + 1)
  {
  }

  /** The log of the first n cycles, one cycle split off. */
  lemma CycleLogCons<F, V>(interval: int, start: int, action: Action<F, V>, ticks: seq<Tick>, n: nat)
    requires interval != 0 && 0 < n <= |ticks|
    ensures CycleLog(interval, start, action, ticks[..n])
         == [Slept(SleepFor(ticks[0].now, interval, start)), Outcome(action, ticks[0])]
            + CycleLog(interval, start, action, ticks[1..][..n - 1])
  {
    assert ticks[..n][1..] == ticks[1..][..n - 1];
  }

  /** The closed form of `run` from st: the number n of cycles it starts, the
      events they log, whether the last one raised (the first failure), the final
      counter, flag and budget. */
  ghost predicate ClosedForm<F, V>(interval: int, start: int, action: Action<F, V>, st: RunState<F, V>, ticks: seq<Tick>)
    requires interval != 0
  {
    var n := Cycles(st.counter, st.iterations, st.stopFlag, action, ticks);
    var r := RunFrom(interval, start, action, st, ticks);
    var stopped := st.stopFlag || FirstStop(ticks) < n;
    var crashed := FirstFailure(action, ticks) < n;
    && n <= |ticks|
    && (crashed ==> FirstFailure(action, ticks) == n - 1)
    && r.counter == st.counter + n - (if crashed then 1 else 0)
    && r.log == st.log + CycleLog(interval, start, action, ticks[..n])
    && r.stopFlag == stopped
    && r.raised == crashed
    && r.iterations == (if n > 0 && stopped && !crashed then Finite(0) else st.iterations)
  }

  lemma ClosedFormDone<F, V>(interval: int, start: int, action: Action<F, V>, st: RunState<F, V>, ticks: seq<Tick>)
    requires interval != 0 && !st.raised
    requires ticks == [] || !Below(st.counter, st.iterations)
    ensures ClosedForm(interval, start, action, st, ticks)
  {
    var n := Cycles(st.counter, st.iterations, st.stopFlag, action, ticks);
    assert n == 0;
    assert ticks[..n] == [];
  }

  lemma ClosedFormRaise<F, V>(interval: int, start: int, action: Action<F, V>, st: RunState<F, V>, ticks: seq<Tick>)
    requires interval != 0 && !st.raised && st.counter >= 0
    requires ticks != [] && Below(st.counter, st.iterations) && Fails(action, ticks[0])
    ensures ClosedForm(interval, start, action, st, ticks)
  {
    assert Cycles(st.counter, st.iterations, st.stopFlag, action, ticks) == 1;
    CycleLogCons(interval, start, action, ticks, 1);
    assert ticks[1..][..0] == [];
  }

  lemma ClosedFormStep<F, V>(interval: int, start: int, action: Action<F, V>, st: RunState<F, V>, ticks: seq<Tick>)
    requires interval != 0 && !st.raised && st.counter >= 0
    requires ticks != [] && Below(st.counter, st.iterations) && !Fails(action, ticks[0])
    requires ClosedForm(interval, start, action, Step(interval, start, action, st, ticks[0]), ticks[1..])
    ensures ClosedForm(interval, start, action, st, ticks)
  {
    var n := Cycles(st.counter, st.iterations, st.stopFlag, action, ticks);
    CyclesAfterStep(st.counter, st.iterations, st.stopFlag, action, ticks);
    CycleLogCons(interval, start, action, ticks, n);
    LogAssoc(st.log, [Slept(SleepFor(ticks[0].now, interval, start)), Outcome(action, ticks[0])],
             CycleLog(interval, start, action, ticks[1..][..n - 1]));
  }

  /** `run` from any state with a non-negative counter follows its closed form. */
  lemma {:induction false} RunFromCycles<F, V>(interval: int, start: int, action: Action<F, V>,
                                               st: RunState<F, V>, ticks: seq<Tick>)
    requires interval != 0 && st.counter >= 0 && !st.raised
    ensures ClosedForm(interval, start, action, st, ticks)
    decreases |ticks|
  {
    if ticks == [] || !Below(st.counter, st.iterations) {
      ClosedFormDone(interval, start, action, st, ticks);
    } else if Fails(action, ticks[0]) {
      ClosedFormRaise(interval, start, action, st, ticks);
    } else {
      RunFromCycles(interval, start, action, Step(interval, start, action, st, ticks[0]), ticks[1..]);
      ClosedFormStep(interval, start, action, st, ticks);
    }
  }

  lemma LogAssoc<F, V>(a: seq<Event<F, V>>, b: seq<Event<F, V>>, c: seq<Event<F, V>>)
    ensures a + b + c == a + (b + c)
  {
  }

  /** The events logged for cycle k: the sleep for that cycle's clock reading, then
      the action, completed or raised. */
  lemma {:induction false} CycleLogAt<F, V>(interval: int, start: int, action: Action<F, V>, ticks: seq<Tick>, k: nat)
    requires interval != 0 && k < |ticks|
    ensures CycleLog(interval, start, action, ticks)[2 * k] == Slept(SleepFor(ticks[k].now, interval, start))
    ensures CycleLog(interval, start, action, ticks)[2 * k + 1] == if Fails(action, ticks[k]) then Raised(action) else Did(action)
    decreases k
  {
    if k > 0 {
      CycleLogAt(interval, start, action, ticks[1..], k - 1);
    }
  }

  /** Every sleep of a positive-interval timer is positive and at most one interval. */
  lemma SleepsWithinInterval<F, V>(interval: int, start: int, action: Action<F, V>, ticks: seq<Tick>)
    requires interval > 0
    ensures forall e :: e in CycleLog(interval, start, action, ticks) && e.Slept? ==> 0 < e.micros <= interval
  {
    var log := CycleLog(interval, start, action, ticks);
    forall e | e in log && e.Slept?
      ensures 0 < e.micros <= interval
    {
      var i :| 0 <= i < |log| && log[i] == e;
      CycleLogAt(interval, start, action, ticks, i / 2);
    }
  }

  /** The number of actions that completed in a log. */
  function Actions<F, V>(log: seq<Event<F, V>>): (n: nat)
    ensures n <= |log|
    decreases |log|
  {
    if log == [] then 0 else (if log[|log| - 1].Did? then 1 else 0) + Actions(log[..|log| - 1])
  }

  lemma {:induction false} ActionsAppend<F, V>(a: seq<Event<F, V>>, b: seq<Event<F, V>>)
    ensures Actions(a + b) == Actions(a) + Actions(b)
    decreases |b|
  {
    if b == [] {
      assert a + b == a;
    } else {
      assert (a + b)[..|a + b| - 1] == a + b[..|b| - 1];
      ActionsAppend(a, b[..|b| - 1]);
    }
  }

  /** The number of cycles whose action raises. */
  function Failures<F, V>(action: Action<F, V>, ticks: seq<Tick>): (n: nat)
    ensures n <= |ticks|
    decreases |ticks|
  {
    if ticks == [] then 0 else (if Fails(action, ticks[0]) then 1 else 0) + Failures(action, ticks[1..])
  }

  /** Each cycle either completes the action once or raises. */
  lemma {:induction false} ActionsOfCycleLog<F, V>(interval: int, start: int, action: Action<F, V>, ticks: seq<Tick>)
    requires interval != 0
    ensures Actions(CycleLog(interval, start, action, ticks)) + Failures(action, ticks) == |ticks|
    decreases |ticks|
  {
    if ticks != [] {
      var head: seq<Event<F, V>> := [Slept(SleepFor(ticks[0].now, interval, start)), Outcome(action, ticks[0])];
      assert Actions(head) == if Fails(action, ticks[0]) then 0 else 1 by {
        assert head[..1] == [head[0]];
      }
      ActionsAppend(head, CycleLog(interval, start, action, ticks[1..]));
      ActionsOfCycleLog(interval, start, action, ticks[1..]);
    }
  }

  /** The cycles that `run` starts raise at most once, in the last of them. */
  lemma {:induction false} FailuresOfPrefix<F, V>(action: Action<F, V>, ticks: seq<Tick>, n: nat)
    requires n <= |ticks| && n <= FirstFailure(action, ticks) + 1
    ensures Failures(action, ticks[..n]) == if FirstFailure(action, ticks) < n then 1 else 0
    decreases n
  {
    if n > 0 {
      assert ticks[..n][0] == ticks[0] && ticks[..n][1..] == ticks[1..][..n - 1];
      if Fails(action, ticks[0]) {
        assert ticks[1..][..n - 1] == [];
      } else {
        FailuresOfPrefix(action, ticks[1..], n - 1);
      }
    }
  }

  /** The completed actions of a run over its cycles. */
  lemma RunActions<F, V>(interval: int, start: int, action: Action<F, V>, st: RunState<F, V>, ticks: seq<Tick>)
    requires interval != 0 && st.counter >= 0 && !st.raised
    ensures var n := Cycles(st.counter, st.iterations, st.stopFlag, action, ticks);
            var r := RunFrom(interval, start, action, st, ticks);
            Actions(r.log) == Actions(st.log) + r.counter - st.counter
  {
    var n := Cycles(st.counter, st.iterations, st.stopFlag, action, ticks);
    RunFromCycles(interval, start, action, st, ticks);
    ActionsAppend(st.log, CycleLog(interval, start, action, ticks[..n]));
    ActionsOfCycleLog(interval, start, action, ticks[..n]);
    FailuresOfPrefix(action, ticks, n);
  }

  /** Without a stop, a finite budget N starts max(N, 0) cycles (given enough
      clock readings) and leaves the budget as it was; they all complete the
      action, unless one raises, which ends the run after the completed ones. */
  lemma ExactBudgetWithoutStop<F, V>(interval: int, start: int, action: Action<F, V>,
                                     log: seq<Event<F, V>>, n: int, ticks: seq<Tick>)
    requires interval != 0 && n <= |ticks|
    requires forall k :: 0 <= k < |ticks| ==> !ticks[k].stopRequested
    ensures var r := RunFrom(interval, start, action, RunState(0, Finite(n), false, log, false), ticks);
            var f := FirstFailure(action, ticks);
            && (f >= Max(0, n) ==> !r.raised && r.counter == Max(0, n) && Actions(r.log) == Actions(log) + Max(0, n))
            && (f < Max(0, n) ==> r.raised && r.counter == f && Actions(r.log) == Actions(log) + f)
            && r.iterations == Finite(n) && !r.stopFlag
  {
    var st := RunState(0, Finite(n), false, log, false);
    RunFromCycles(interval, start, action, st, ticks);
    RunActions(interval, start, action, st, ticks);
    var c := Cycles(0, Finite(n), false, action, ticks);
    assert c == Min(Max(0, n), FirstFailure(action, ticks) + 1);
  }

  /** The flag is checked only after the action: a stop requested before `run`
      still lets one action happen, then zeroes the budget; if that action
      raises, the budget is left and the exception ends the run. */
  lemma StopBeforeRunActsOnce<F, V>(interval: int, start: int, action: Action<F, V>,
                                    log: seq<Event<F, V>>, iterations: Budget, ticks: seq<Tick>)
    requires interval != 0 && ticks != [] && Below(0, iterations)
    ensures var r := RunFrom(interval, start, action, RunState(0, iterations, true, log, false), ticks);
            && r.stopFlag && |r.log| == |log| + 2
            && (!Fails(action, ticks[0]) ==>
                  r.counter == 1 && Actions(r.log) == Actions(log) + 1 && r.iterations == Finite(0) && !r.raised)
            && (Fails(action, ticks[0]) ==>
                  r.counter == 0 && Actions(r.log) == Actions(log) && r.iterations == iterations && r.raised)
  {
    var st := RunState(0, iterations, true, log, false);
    RunFromCycles(interval, start, action, st, ticks);
    RunActions(interval, start, action, st, ticks);
    assert Cycles(0, iterations, true, action, ticks) == 1;
  }

  /** A stop requested during cycle k lets that cycle's action finish and ends the
      loop right after it: k + 1 actions in all, when the budget and clock allow.
      An action that raises first ends the loop at once, the budget untouched. */
  lemma StopDuringCycle<F, V>(interval: int, start: int, action: Action<F, V>,
                              log: seq<Event<F, V>>, iterations: Budget, ticks: seq<Tick>, k: nat)
    requires interval != 0 && k < |ticks| && Below(k, iterations)
    requires ticks[k].stopRequested
    requires forall j :: 0 <= j < k ==> !ticks[j].stopRequested
    ensures var r := RunFrom(interval, start, action, RunState(0, iterations, false, log, false), ticks);
            var f := FirstFailure(action, ticks);
            && (f > k ==>
                  r.counter == k + 1 && Actions(r.log) == Actions(log) + k + 1
                  && r.iterations == Finite(0) && r.stopFlag && !r.raised)
            && (f <= k ==>
                  r.counter == f && Actions(r.log) == Actions(log) + f
                  && r.iterations == iterations && r.stopFlag == (f == k) && r.raised)
  {
    var st := RunState(0, iterations, false, log, false);
    RunFromCycles(interval, start, action, st, ticks);
    RunActions(interval, start, action, st, ticks);
    assert FirstStop(ticks) == k;
    assert Cycles(0, iterations, false, action, ticks) == Min(k + 1, FirstFailure(action, ticks) + 1);
  }

  /** The first action that raises, at cycle k with no stop before it, ends `run`:
      k actions completed, the budget untouched, and the last event is the failure. */
  lemma RaiseEndsRun<F, V>(interval: int, start: int, action: Action<F, V>,
                           log: seq<Event<F, V>>, iterations: Budget, ticks: seq<Tick>, k: nat)
    requires interval != 0 && k < |ticks| && Below(k, iterations)
    requires Fails(action, ticks[k])
    requires forall j :: 0 <= j < k ==> !ticks[j].stopRequested && !Fails(action, ticks[j])
    ensures var r := RunFrom(interval, start, action, RunState(0, iterations, false, log, false), ticks);
            && r.raised && r.counter == k && Actions(r.log) == Actions(log) + k
            && r.iterations == iterations && r.stopFlag == ticks[k].stopRequested
            && |r.log| == |log| + 2 * (k + 1) && r.log[|r.log| - 1] == Raised(action)
  {
    var st := RunState(0, iterations, false, log, false);
    RunFromCycles(interval, start, action, st, ticks);
    RunActions(interval, start, action, st, ticks);
    assert FirstFailure(action, ticks) == k;
    assert FirstStop(ticks) >= k;
    assert Cycles(0, iterations, false, action, ticks) == k + 1;
    CycleLogAt(interval, start, action, ticks[..k + 1], k);
  }

  /** The loop counter never passes the original budget. */
  lemma CounterWithinBudget<F, V>(interval: int, start: int, action: Action<F, V>,
                                  log: seq<Event<F, V>>, stopFlag: bool, n: int, ticks: seq<Tick>)
    requires interval != 0
    ensures RunFrom(interval, start, action, RunState(0, Finite(n), stopFlag, log, false), ticks).counter <= Max(0, n)
  {
    RunFromCycles(interval, start, action, RunState(0, Finite(n), stopFlag, log, false), ticks);
  }

  /** A periodic timer. The clock (`dtfunc`) is replaced by the clock readings
      passed to `Run`, and `time.sleep` and the action by the events they log. */
  class CTimer<F, V> {
    const interval: int
    const start: int
    const rounder: int -> int
    const action: Action<F, V>
    var iterations: Budget
    var stopFlag: bool
    var log: seq<Event<F, V>>

    /** The rounder is truncation onto the timer's own grid. */
    ghost predicate Valid() {
      interval != 0 && forall d :: rounder(d) == Truncated(d, interval, start)
    }

    /** A timer whose `do()` does nothing; interval in microseconds. */
    constructor (interval: int, start: int := START_TIME, iterations: Budget := Infinite)
      requires interval != 0
      ensures Valid()
      ensures this.interval == interval && this.start == start && this.action == Pass
      ensures this.iterations == iterations && !stopFlag && log == []
    {
      this.interval := interval;
      this.start := start;
      this.rounder := DatetimeRounder(interval, start);
      this.action := Pass;
      this.iterations := iterations;
      this.stopFlag := false;
      this.log := [];
    }

    /** A timer whose `do()` calls `callee(*args, **kwargs)`; missing arguments
        default to no positional and no keyword arguments. */
    constructor FuncCTimer(callee: F, interval: int, args: seq<V> := [], kwargs: map<string, V> := map[],
                           start: int := START_TIME, iterations: Budget := Infinite)
      requires interval != 0
      ensures Valid()
      ensures this.interval == interval && this.start == start && this.action == Call(callee, args, kwargs)
      ensures this.iterations == iterations && !stopFlag && log == []
    {
      this.interval := interval;
      this.start := start;
      this.rounder := DatetimeRounder(interval, start);
      this.action := Call(callee, args, kwargs);
      this.iterations := iterations;
      this.stopFlag := false;
      this.log := [];
    }

    /** Sleeps for the given duration, or not at all when it is negative. */
    method Sleep(micros: int)
      modifies this`log
      ensures log == old(log) + [Slept(Max(0, micros))]
    {
      log := log + [Slept(Max(0, micros))];
    }

    /** Raises the stop flag; nothing else changes. */
    method Stop()
      modifies this`stopFlag
      ensures stopFlag
    {
      stopFlag := true;
    }

    /** Performs the action once; a called function may raise instead, which
        this reports and logs. `pass` never raises. */
    method Do(fails: bool) returns (raised: bool)
      modifies this`log
      ensures raised == (action.Call? && fails)
      ensures log == old(log) + [if raised then Raised(action) else Did(action)]
    {
      raised := action.Call? && fails;
      log := log + [if raised then Raised(action) else Did(action)];
    }

    /** The timer loop, over the given clock readings (at most one cycle per
        reading); it reports whether it ended with the action's exception. */
    method Run(ticks: seq<Tick>) returns (raised: bool)
      requires Valid()
      modifies this
      ensures var r := RunFrom(interval, start, action, RunState(0, old(iterations), old(stopFlag), old(log), false), ticks);
              iterations == r.iterations && stopFlag == r.stopFlag && log == r.log && raised == r.raised
    {
      ghost var init := RunState(0, iterations, stopFlag, log, false);
      var counter := 0;
      var k := 0;
      raised := false;
      while k < |ticks| && !raised && Below(counter, iterations)
        invariant 0 <= k <= |ticks|
        invariant RunFrom(interval, start, action, init, ticks)
               == RunFrom(interval, start, action, RunState(counter, iterations, stopFlag, log, raised), ticks[k..])
      {
        assert ticks[k..][1..] == ticks[k + 1..];
        ghost var before := RunState(counter, iterations, stopFlag, log, raised);
        var now := ticks[k].now;
        var delta := rounder(now) + interval - now;
        Sleep(delta);
        raised := Do(ticks[k].raises);
        if ticks[k].stopRequested {
          Stop();
        }
        if !raised {
          counter := counter + 1;
          if stopFlag {
            iterations := Finite(0);
          }
        }
        assert RunState(counter, iterations, stopFlag, log, raised) == Step(interval, start, action, before, ticks[k]);
        k := k + 1;
      }
      assert RunFrom(interval, start, action, RunState(counter, iterations, stopFlag, log, raised), ticks[k..])
          == RunState(counter, iterations, stopFlag, log, raised);
    }
  }
}
