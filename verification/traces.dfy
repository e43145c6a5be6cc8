/**
 * Runs of the controller over traces of dispatched events.
 *
 * The cooperative runner dispatches one handler at a time and each runs to
 * completion, so a run is a left fold of `Step` over the trace. The fold is
 * written from the back (the last event is applied to the run of the
 * prefix), which makes prefix arguments direct.
 */
module Traces {
  import opened Application

  /** The fold of an arbitrary step function over a trace, from the back. */
  function Fold(step: (State, Event) -> Effect, s: State, t: seq<Event>): Effect
    decreases |t|
  {
    if |t| == 0 then Effect(s, NoCalls)
    else
      var p := Fold(step, s, t[..|t| - 1]);
      var q := step(p.state, t[|t| - 1]);
      Effect(q.state, p.calls.Then(q.calls))
  }

  /** The controller after dispatching every event of `t`, in order, from `s`. */
  function Run(s: State, t: seq<Event>): Effect {
    Fold(Step, s, t)
  }

  /** The clock never runs backwards along `t`. */
  ghost predicate ClockMonotone(t: seq<Event>) {
    forall i, j :: 0 <= i <= j < |t| ==> t[i].now <= t[j].now
  }

  function PressCount(t: seq<Event>): nat {
    if |t| == 0 then 0
    else PressCount(t[..|t| - 1]) + (if IsPress(t[|t| - 1]) then 1 else 0)
  }

  /** The application task re-plans itself this many milliseconds after each run. */
  const TickPeriod: nat := 1000

  /** `n` periodic ticks, `TickPeriod` apart, the first at `start`. */
  function Ticks(start: nat, n: nat): (t: seq<Event>)
    ensures |t| == n
    ensures forall k :: 0 <= k < n ==> t[k] == Tick(start + k * TickPeriod)
  {
    if n == 0 then [] else Ticks(start, n - 1) + [Tick(start + (n - 1) * TickPeriod)]
  }

  lemma FoldSnoc(step: (State, Event) -> Effect, s: State, t: seq<Event>, e: Event)
    ensures Fold(step, s, t + [e]).state == step(Fold(step, s, t).state, e).state
    ensures Fold(step, s, t + [e]).calls == Fold(step, s, t).calls.Then(step(Fold(step, s, t).state, e).calls)
  {
    assert (t + [e])[..|t|] == t;
  }

  lemma ThenAssociative(a: Calls, b: Calls, c: Calls)
    ensures a.Then(b).Then(c) == a.Then(b.Then(c))
  {
    assert (a.led + b.led) + c.led == a.led + (b.led + c.led);
    assert (a.radio + b.radio) + c.radio == a.radio + (b.radio + c.radio);
    assert (a.sensor + b.sensor) + c.sensor == a.sensor + (b.sensor + c.sensor);
    assert (a.log + b.log) + c.log == a.log + (b.log + c.log);
  }

  lemma ThenNoCalls(a: Calls)
    ensures a.Then(NoCalls) == a && NoCalls.Then(a) == a
  {
    assert a.led + [] == a.led && a.radio + [] == a.radio;
    assert a.sensor + [] == a.sensor && a.log + [] == a.log;
  }

  lemma {:induction false} FoldConcat(step: (State, Event) -> Effect, s: State, a: seq<Event>, b: seq<Event>)
    ensures Fold(step, s, a + b).state == Fold(step, Fold(step, s, a).state, b).state
    ensures Fold(step, s, a + b).calls == Fold(step, s, a).calls.Then(Fold(step, Fold(step, s, a).state, b).calls)
    decreases |b|
  {
    var m := Fold(step, s, a);
    if |b| == 0 {
      assert a + b == a;
      ThenNoCalls(m.calls);
    } else {
      var b', e := b[..|b| - 1], b[|b| - 1];
      assert a + b == (a + b') + [e];
      assert b == b' + [e];
      FoldConcat(step, s, a, b');
      FoldSnoc(step, s, a + b', e);
      FoldSnoc(step, m.state, b', e);
      var q := step(Fold(step, m.state, b').state, e);
      ThenAssociative(m.calls, Fold(step, m.state, b').calls, q.calls);
    }
  }

  lemma RunSnoc(s: State, t: seq<Event>, e: Event)
    ensures Run(s, t + [e]).state == Step(Run(s, t).state, e).state
    ensures Run(s, t + [e]).calls == Run(s, t).calls.Then(Step(Run(s, t).state, e).calls)
  {
    FoldSnoc(Step, s, t, e);
  }

  lemma RunConcat(s: State, a: seq<Event>, b: seq<Event>)
    ensures Run(s, a + b).state == Run(Run(s, a).state, b).state
    ensures Run(s, a + b).calls == Run(s, a).calls.Then(Run(Run(s, a).state, b).calls)
  {
    FoldConcat(Step, s, a, b);
  }

  /**
   * Where a run's state comes from: a cycle that was not running at the
   * start is running at the end only if the trace holds a press, and a
   * deadline that moved was set by a refresh event of the trace.
   */
  lemma {:induction false} Provenance(s: State, t: seq<Event>)
    ensures Run(s, t).state.washing && !s.washing ==> exists i :: 0 <= i < |t| && IsPress(t[i])
    ensures Run(s, t).state.deadline == s.deadline
            || exists i :: 0 <= i < |t| && IsRefresh(t[i]) && Run(s, t).state.deadline == t[i].now + RadioDelay
    decreases |t|
  {
    if |t| > 0 {
      var p, e := t[..|t| - 1], t[|t| - 1];
      assert t == p + [e];
      Provenance(s, p);
      RunSnoc(s, p, e);
      assert forall i :: 0 <= i < |p| ==> p[i] == t[i];
    }
  }

  /**
   * Motion alone never starts a cycle: from an idle state, a trace without a
   * button press leaves both globals exactly as they were, publishes nothing
   * and never touches the LED, however many alarms it holds.
   */
  lemma {:induction false} QuietWithoutPress(s: State, t: seq<Event>)
    requires !s.washing
    requires forall i :: 0 <= i < |t| ==> !IsPress(t[i])
    ensures Run(s, t).state == s
    ensures Run(s, t).calls.radio == [] && Run(s, t).calls.led == []
    decreases |t|
  {
    if |t| > 0 {
      var p, e := t[..|t| - 1], t[|t| - 1];
      assert t == p + [e];
      QuietWithoutPress(s, p);
      RunSnoc(s, p, e);
    }
  }

  /** From power-up, a trace without a press keeps the controller idle with deadline 0. */
  lemma NoPressNoCycle(t: seq<Event>)
    requires forall i :: 0 <= i < |t| ==> !IsPress(t[i])
    ensures !Run(Init, t).state.washing && Run(Init, t).state.deadline == 0
    ensures Run(Init, t).calls.radio == []
  {
    QuietWithoutPress(Init, t);
  }

  /**
   * A trace of ticks alone leaves the deadline where it was, and the cycle
   * survives exactly when every tick comes before the deadline. Once idle,
   * every further tick is a no-op.
   */
  lemma {:induction false} TicksOnly(s: State, t: seq<Event>)
    requires forall i :: 0 <= i < |t| ==> t[i].Tick?
    ensures Run(s, t).state.deadline == s.deadline
    ensures Run(s, t).state.washing <==> s.washing && forall i :: 0 <= i < |t| ==> t[i].now < s.deadline
    ensures !s.washing ==> Run(s, t) == Effect(s, NoCalls)
    decreases |t|
  {
    if |t| > 0 {
      var p, e := t[..|t| - 1], t[|t| - 1];
      assert forall i :: 0 <= i < |p| ==> p[i] == t[i];
      TicksOnly(s, p);
      assert t == p + [e];
      RunSnoc(s, p, e);
      ThenNoCalls(Run(s, p).calls);
    }
  }

  /**
   * A trace of ticks alone publishes the end of a cycle at most once: exactly
   * when it ends the cycle that was running at its start, and then only that.
   * While the cycle keeps running, the ticks call no driver at all.
   */
  lemma {:induction false} TicksPublishAtMostOnce(s: State, t: seq<Event>)
    requires forall i :: 0 <= i < |t| ==> t[i].Tick?
    ensures Run(s, t).calls.radio == if s.washing && !Run(s, t).state.washing then [Finished] else []
    ensures Run(s, t).state.washing ==> Run(s, t) == Effect(s, NoCalls)
    decreases |t|
  {
    if |t| > 0 {
      var p, e := t[..|t| - 1], t[|t| - 1];
      assert forall i :: 0 <= i < |p| ==> p[i] == t[i];
      TicksOnly(s, p);
      TicksPublishAtMostOnce(s, p);
      assert Run(s, t).state == Step(Run(s, p).state, e).state
          && Run(s, t).calls == Run(s, p).calls.Then(Step(Run(s, p).state, e).calls) by {
        assert t == p + [e];
        RunSnoc(s, p, e);
      }
      ThenNoCalls(Run(s, p).calls);
      ThenNoCalls(Step(Run(s, p).state, e).calls);
    }
  }

  /**
   * A tick is the only way out of a cycle: if the cycle is running before
   * event `i` of a trace and not after it, that event is a tick at or past
   * the deadline in force.
   */
  lemma OnlyTickEndsCycle(s: State, t: seq<Event>, i: nat)
    requires i < |t|
    requires Run(s, t[..i]).state.washing && !Run(s, t[..i + 1]).state.washing
    ensures t[i].Tick? && t[i].now >= Run(s, t[..i]).state.deadline
  {
    assert t[..i + 1] == t[..i] + [t[i]];
    RunSnoc(s, t[..i], t[i]);
  }

  /**
   * With the application task running every `TickPeriod` milliseconds and nothing else
   * happening, a running cycle ends at the first tick at or after its
   * deadline, with exactly one end-of-cycle publication; before that tick
   * nothing at all happens.
   */
  lemma TickCadence(s: State, start: nat, n: nat)
    requires s.washing
    ensures n == 0 || start + (n - 1) * TickPeriod < s.deadline ==> Run(s, Ticks(start, n)) == Effect(s, NoCalls)
    ensures n > 0 && start + (n - 1) * TickPeriod >= s.deadline ==>
              Run(s, Ticks(start, n)).state == State(false, s.deadline)
              && Run(s, Ticks(start, n)).calls.radio == [Finished]
  {
    var t := Ticks(start, n);
    TicksOnly(s, t);
    TicksPublishAtMostOnce(s, t);
    if n > 0 && start + (n - 1) * TickPeriod >= s.deadline {
      assert t[n - 1].now >= s.deadline;
    } else {
      forall i | 0 <= i < |t|
        ensures t[i].now < s.deadline
      {
        assert t[i].now == start + i * TickPeriod <= start + (n - 1) * TickPeriod;
      }
    }
  }

  /**
   * Every press publishes one push-button event, and every end-of-cycle
   * publication (plus the cycle still running, if any) is paid for by a
   * distinct press: finished notifications never outnumber presses.
   */
  lemma {:induction false} PublicationsCountPresses(t: seq<Event>)
    ensures multiset(Run(Init, t).calls.radio)[PushButton] == PressCount(t)
    ensures multiset(Run(Init, t).calls.radio)[Finished] + (if Run(Init, t).state.washing then 1 else 0) <= PressCount(t)
    decreases |t|
  {
    if |t| > 0 {
      var p, e := t[..|t| - 1], t[|t| - 1];
      PublicationsCountPresses(p);
      var m, q := Run(Init, p), Step(Run(Init, p).state, e);
      assert Run(Init, t).state == q.state && Run(Init, t).calls.radio == m.calls.radio + q.calls.radio by {
        assert t == p + [e];
        RunSnoc(Init, p, e);
      }
      StepCounts(m.state, e);
    }
  }

  /** One dispatch publishes a push-button event per press and ends at most the running cycle. */
  lemma StepCounts(s: State, e: Event)
    ensures multiset(Step(s, e).calls.radio)[PushButton] == if IsPress(e) then 1 else 0
    ensures multiset(Step(s, e).calls.radio)[Finished] + (if Step(s, e).state.washing then 1 else 0)
            <= (if s.washing then 1 else 0) + (if IsPress(e) then 1 else 0)
  {
    var r := Step(s, e);
    if IsPress(e) {
      assert r.calls.radio == [PushButton];
    } else if s.washing && !r.state.washing {
      assert r.calls.radio == [Finished];
    } else {
      assert r.calls.radio == [];
    }
  }

  /** Every deadline a run from power-up has set is at most `RadioDelay` past the latest clock reading. */
  lemma DeadlineBoundedByClock(t: seq<Event>, now: nat)
    requires forall i :: 0 <= i < |t| ==> t[i].now <= now
    ensures Run(Init, t).state.deadline <= now + RadioDelay
  {
    var r := Run(Init, t);
    Provenance(Init, t);
    if r.state.deadline != 0 {
      var i :| 0 <= i < |t| && IsRefresh(t[i]) && r.state.deadline == t[i].now + RadioDelay;
    }
  }

  /**
   * Under a clock that never runs backwards the deadline never decreases:
   * each refresh sets it from a clock reading at least as late as the one
   * that set it before.
   */
  lemma {:induction false} DeadlineNeverDecreases(t: seq<Event>, i: nat, j: nat)
    requires ClockMonotone(t)
    requires i <= j <= |t|
    ensures Run(Init, t[..i]).state.deadline <= Run(Init, t[..j]).state.deadline
    decreases j - i
  {
    if i < j {
      DeadlineNeverDecreases(t, i + 1, j);
      DeadlineStep(t, i);
    }
  }

  /** One dispatch under a monotone clock does not move the deadline backwards. */
  lemma DeadlineStep(t: seq<Event>, i: nat)
    requires ClockMonotone(t)
    requires i < |t|
    ensures Run(Init, t[..i]).state.deadline <= Run(Init, t[..i + 1]).state.deadline
  {
    var p, e := t[..i], t[i];
    var m := Run(Init, p).state;
    assert Run(Init, t[..i + 1]).state == Step(m, e).state by {
      assert t[..i + 1] == p + [e];
      RunSnoc(Init, p, e);
    }
    assert m.deadline <= e.now + RadioDelay by {
      assert forall k :: 0 <= k < |p| ==> p[k] == t[k];
      DeadlineBoundedByClock(p, e.now);
    }
  }

  /** From power-up, a press at `now` starts a cycle with deadline `now + RadioDelay` and publishes once. */
  lemma FirstPress(now: nat)
    ensures Run(Init, [Button(Press, now)]).state == State(true, now + RadioDelay)
    ensures Run(Init, [Button(Press, now)]).calls.radio == [PushButton]
  {
    assert [Button(Press, now)] == [] + [Button(Press, now)];
    RunSnoc(Init, [], Button(Press, now));
  }

  /**
   * A press at `p` followed by one tick at `n`: the tick ends the cycle
   * exactly when `n >= p + RadioDelay`, and only then publishes its end.
   */
  lemma PressThenTick(p: nat, n: nat)
    ensures Run(Init, [Button(Press, p), Tick(n)]).state == State(n < p + RadioDelay, p + RadioDelay)
    ensures Run(Init, [Button(Press, p), Tick(n)]).calls.radio
            == if n >= p + RadioDelay then [PushButton, Finished] else [PushButton]
  {
    var press, tick := Button(Press, p), Tick(n);
    FirstPress(p);
    assert [press, tick] == [press] + [tick];
    RunSnoc(Init, [press], tick);
  }

  /** Press at 0, tick at 5000: the boundary is inclusive, so the cycle ends. */
  lemma ScenarioInclusiveBoundary()
    ensures Run(Init, [Button(Press, 0), Tick(5000)]).state == State(false, 5000)
    ensures Run(Init, [Button(Press, 0), Tick(5000)]).calls.radio == [PushButton, Finished]
  {
    PressThenTick(0, 5000);
  }

  /** Periodic ticks that all come before the deadline of a running cycle leave the run as it was. */
  lemma QuietTicksAfter(s: State, a: seq<Event>, start: nat, n: nat)
    requires Run(s, a).state.washing
    requires n == 0 || start + (n - 1) * TickPeriod < Run(s, a).state.deadline
    ensures Run(s, a + Ticks(start, n)) == Run(s, a)
  {
    RunConcat(s, a, Ticks(start, n));
    TickCadence(Run(s, a).state, start, n);
    ThenNoCalls(Run(s, a).calls);
  }

  /** The first part of the scenario below, up to and including the alarm at 4000. */
  function AlarmScenario(): seq<Event> {
    [Button(Press, 0)] + Ticks(1000, 3) + [Acc(AccAlarm, 4000)]
  }

  /** An alarm during a running cycle moves its deadline to the alarm's time plus `RadioDelay` and publishes nothing. */
  lemma AlarmDuringCycle(s: State, a: seq<Event>, now: nat)
    requires Run(s, a).state.washing
    ensures Run(s, a + [Acc(AccAlarm, now)]).state == State(true, now + RadioDelay)
    ensures Run(s, a + [Acc(AccAlarm, now)]).calls.radio == Run(s, a).calls.radio
  {
    RunSnoc(s, a, Acc(AccAlarm, now));
  }

  /**
   * Periodic ticks after a running cycle, the last at or past its deadline:
   * the cycle ends with its deadline kept, and one end-of-cycle publication
   * is added to the radio calls.
   */
  lemma ExpiryAfter(s: State, a: seq<Event>, start: nat, n: nat)
    requires Run(s, a).state.washing
    requires n > 0 && start + (n - 1) * TickPeriod >= Run(s, a).state.deadline
    ensures Run(s, a + Ticks(start, n)).state == State(false, Run(s, a).state.deadline)
    ensures Run(s, a + Ticks(start, n)).calls.radio == Run(s, a).calls.radio + [Finished]
  {
    RunConcat(s, a, Ticks(start, n));
    TickCadence(Run(s, a).state, start, n);
  }

  /** Up to the alarm at 4000 the cycle runs with deadline 9000 and only the press is published. */
  lemma AlarmScenarioPrefix()
    ensures Run(Init, AlarmScenario()).state == State(true, 9000)
    ensures Run(Init, AlarmScenario()).calls.radio == [PushButton]
  {
    var press := Button(Press, 0);
    var a0 := [press] + Ticks(1000, 3);
    FirstPress(0);
    QuietTicksAfter(Init, [press], 1000, 3);
    AlarmDuringCycle(Init, a0, 4000);
    assert AlarmScenario() == a0 + [Acc(AccAlarm, 4000)];
  }

  /**
   * Press at 0, ticks at 1000, 2000 and 3000, an alarm at 4000, then ticks
   * every second from 4000: the alarm moves the deadline to 9000, and the
   * ticks from 4000 to 8000 leave the cycle running.
   */
  lemma ScenarioAlarmExtends()
    ensures Run(Init, AlarmScenario() + Ticks(4000, 5)).state == State(true, 9000)
  {
    AlarmScenarioPrefix();
    QuietTicksAfter(Init, AlarmScenario(), 4000, 5);
  }

  /** The same scenario, continued to the tick at 9000: the cycle ends and its end is published once. */
  lemma ScenarioAlarmThenExpiry()
    ensures Run(Init, AlarmScenario() + Ticks(4000, 6)).state == State(false, 9000)
    ensures Run(Init, AlarmScenario() + Ticks(4000, 6)).calls.radio == [PushButton, Finished]
  {
    AlarmScenarioPrefix();
    ExpiryAfter(Init, AlarmScenario(), 4000, 6);
    assert [PushButton] + [Finished] == [PushButton, Finished];
  }
}
