# Washing-machine monitor: washing-detection controller

This project models, in Dafny, the washing-detection controller of a
battery-powered washing-machine monitor (`app/application.c`). The firmware
keeps two globals: `washing`, which is true while a wash cycle is running, and
`radio_delay`, the tick at which the cycle counts as over unless something
refreshes it. Three handlers act on these globals:

- The **button handler** starts a cycle, or refreshes the running one. It sets
  the deadline to now + `RADIO_DELAY` (5000 ms), sets `washing`, switches the
  LED on and publishes a push-button event.
- The **accelerometer handler** reads the sample on an update. On a motion
  alarm during a cycle it moves the deadline to now + 5000 ms and pulses the
  LED for 100 ms. Any other event is only logged.
- The **application task** runs every 1000 ms. When a cycle is running and the
  clock has reached the deadline, it ends the cycle: the LED goes off and
  `washing/finished = true` is published.

The files:

- `application.dfy` (module `Application`) defines the state record, the
  events and the handlers. Each handler is a pure function from the state
  before the call to the state after it, plus the calls it made into each
  driver (LED, radio, accelerometer, log). `Step` is one dispatch of the
  cooperative runner.
- `traces.dfy` (module `Traces`) defines `Run`, the fold of `Step` over a trace
  of dispatched events. It also holds the trace lemmas: motion alone never
  starts a cycle, a tick is the only way out of a cycle
  (`Traces.OnlyTickEndsCycle`), the end of a cycle is published once, the
  deadline never moves backwards under a monotone clock, and concrete
  scenarios.
- `reference.dfy` (module `Reference`) gives a declarative description of the
  controller. A cycle is running exactly when some press has been followed by
  no other press and by no tick at or past the last refresh + 5000. While a
  cycle runs, the deadline is the last refresh + 5000. The module proves that
  the fold of the handlers meets this description on every trace.

`Run` places no requirement on the clock, because the firmware does not either.
Only the lemmas about the deadline never decreasing require a clock that does
not run backwards (`Traces.ClockMonotone`).

`washing` does not mean "the deadline is still in the future". The code leaves
`washing` true after the deadline has passed, until the next run of the
application task. The model follows the code. `Reference.RunMatchesReference`
states the exact condition: expiry takes effect at a tick.

## Model

| member | source | states |
|---|---|---|
| Application.ButtonEventHandler | app/application.c:49-59 | A press, whatever the prior state, yields a running cycle with deadline now + 5000, switches the LED on and publishes exactly one push-button event, with no sensor read and no log message. Release, click and hold change nothing and call no driver. |
| Application.Lis2EventHandler | app/application.c:27-47 | The accelerometer handler never changes `washing` and never publishes. An alarm during a cycle sets the deadline to now + 5000 and pulses the LED for 100 ms. An update or error, or an alarm while idle, leaves the state unchanged and does not touch the LED. Exactly an update reads the sample, and only an update logs nothing: an alarm during a cycle logs "updating", every other event logs "not washing". |
| Application.ApplicationTask | app/application.c:121-130 | A running cycle whose deadline has been reached (inclusive) ends: the deadline is kept, the LED goes off, "finished" is logged and exactly one `washing/finished = true` is published. Otherwise nothing changes and no driver is called. |
| Application.Step | app/application.c:27-129 | The transition diagram of one dispatch. Idle becomes washing exactly on a press. Washing becomes idle exactly on a tick at or past the deadline. A changed deadline is always the refresh event's time + 5000. The radio carries exactly one push-button event per press and one finished event per cycle ended. |
| Traces.Ticks | app/application.c:131 | The re-planned application task produces ticks 1000 ms apart: the k-th tick of the sequence is at start + 1000·k. |
| Traces.Provenance | app/application.c:35-56 | After any trace, a cycle that was not running at the start is running only if the trace holds a press. A deadline that moved equals the time of some press or alarm of the trace + 5000. |
| Traces.QuietWithoutPress | app/application.c:31-46 | From an idle state, any number of alarms, updates, errors, non-press button events and ticks leave both globals unchanged, publish nothing and never touch the LED. |
| Traces.NoPressNoCycle | app/application.c:23-25 | From power-up (idle, deadline 0), a trace without a press keeps the controller idle with deadline 0 and publishes nothing. |
| Traces.TicksOnly | app/application.c:123-129 | Ticks alone never move the deadline. A running cycle survives exactly when every tick comes before its deadline. Once idle, every further tick changes nothing and calls no driver. |
| Traces.TicksPublishAtMostOnce | app/application.c:123-128 | Ticks alone publish at most one finished event: one exactly when they end the running cycle, none otherwise. While the cycle survives they call no driver at all. |
| Traces.OnlyTickEndsCycle | app/application.c:123-125 | On any trace, if a cycle is running before some event and not after it, that event is a tick at or past the deadline in force: no other handler clears `washing`. |
| Traces.TickCadence | app/application.c:121-131 | With ticks every 1000 ms, a running cycle ends at the first tick at or after its deadline, keeping that deadline and publishing one finished event. Before that tick nothing happens. |
| Traces.StepCounts | app/application.c:49-129 | One dispatch publishes one push-button event exactly when it is a press. Its finished publications plus a cycle still running are at most the cycle that was running plus the press. |
| Traces.PublicationsCountPresses | app/application.c:49-129 | Over any trace from power-up, the number of push-button publications equals the number of presses. Finished publications, plus one for a cycle still running, never outnumber the presses. |
| Traces.DeadlineBoundedByClock | app/application.c:35-56 | After a run from power-up, the deadline is at most 5000 past the latest clock reading of the trace. |
| Traces.DeadlineStep | app/application.c:35-56 | Under a monotone clock, one dispatch never moves the deadline backwards. |
| Traces.DeadlineNeverDecreases | app/application.c:35-56 | Under a monotone clock, the deadline after a prefix is never greater than after any longer prefix. |
| Traces.FirstPress | app/application.c:51-56 | From power-up, a press at time p starts a cycle with deadline p + 5000 and publishes one push-button event. |
| Traces.PressThenTick | app/application.c:123-128 | A press at p followed by a tick at n: the cycle ends exactly when n ≥ p + 5000, and only then is the finished event published after the push-button event. |
| Traces.ScenarioInclusiveBoundary | app/application.c:123 | A press at 0 and a tick at 5000 end the cycle: the boundary is inclusive. |
| Traces.QuietTicksAfter | app/application.c:123 | Periodic ticks that all fall before a running cycle's deadline leave the whole run, state and driver calls, unchanged. |
| Traces.AlarmDuringCycle | app/application.c:35-41 | After any trace that leaves a cycle running, an alarm at t keeps the cycle running, moves the deadline to t + 5000 and adds no publication. |
| Traces.ExpiryAfter | app/application.c:123-128 | After any trace that leaves a cycle running, periodic ticks whose last tick reaches the deadline end the cycle and add exactly one finished publication. |
| Traces.AlarmScenarioPrefix | app/application.c:35-41 | Press at 0, ticks at 1000–3000, alarm at 4000: the cycle runs with deadline 9000, and only the press has been published. |
| Traces.ScenarioAlarmExtends | app/application.c:40 | In the same scenario, ticks from 4000 to 8000 leave the cycle running, because the alarm pushed the deadline past the original 5000. |
| Traces.ScenarioAlarmThenExpiry | app/application.c:123-128 | In the same scenario, the tick at 9000 ends the cycle. The radio then carries exactly the push-button event followed by one finished event. |
| Reference.LastRefresh | app/application.c:35-56 | The time of the last press or alarm of a trace. It is absent exactly when the trace holds no refresh. When present, it is the time of a refresh event with no refresh after it. |
| Reference.RunMatchesReference | app/application.c:23-129 | For every trace from power-up, `washing` holds exactly when some press is followed by no press and no expiring tick. While washing, the deadline is the last refresh + 5000. |

## Left out

- `battery_event_handler` (app/application.c:62-78) only reads a floating-point voltage and passes it to the radio. It involves no decision about the washing state.
- `application_init` (app/application.c:80-117) sets up the LED, button, accelerometer and alarm driver instances, logging, radio pairing and the scheduler. This includes the accelerometer alarm configuration (axis, floating-point threshold, duration). It does not touch `washing` or `radio_delay`: those two globals get their values where they are declared (app/application.c:23, :25), and `Application.Init` is that initial value. The 2000 ms start-up LED pulse (app/application.c:87) is not modelled.
- Driver calls appear only as tokens: LED commands, radio publications, the sample read and the debug log messages. Their effects on hardware and on the air are not modelled.
- The topic string `washing/finished` and the log texts are enumeration values, not strings.
- Each driver's calls are recorded in order, but the interleaving of calls to different drivers is not kept, within a handler or across a trace. For example, a run does not show whether an LED command came before or after an earlier publication.
- The scheduler itself is not modelled (app/application.c:131). Its effect, the application task running every 1000 ms, appears only as the tick spacing of `Traces.Ticks`. `Run` accepts ticks at any times.
- Tick-counter wraparound is not modelled. Ticks are unbounded naturals, matching the code's plain `>=` comparison.
- The unused local `holdTime` (app/application.c:29) is not modelled.
- The clock reading is an input carried by each event (the value `bc_tick_get` returns during that dispatch). It is not a model of the tick counter.
- The firmware's own queueing of events and the hardware interrupts that raise them are not modelled. A trace is the order in which the runner dispatched them.
