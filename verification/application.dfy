/**
 * The washing-detection controller of the washing-machine monitor firmware.
 *
 * The firmware keeps two globals: `washing`, true while a wash cycle is in
 * progress, and `radio_delay`, the tick at which the cycle is over unless it
 * is refreshed. Three handlers change them: the button handler starts or
 * refreshes a cycle, the accelerometer handler refreshes a running cycle on
 * a motion alarm, and the periodic application task ends an expired cycle.
 *
 * Here the globals are one immutable `State` value and every handler is a
 * pure function from the state before the call to the state after it plus
 * the calls it makes into the LED, radio, accelerometer and log drivers,
 * recorded per driver as abstract tokens.
 */
module Application {

  /** Extension of the deadline on every qualifying event, in milliseconds. */
  const RadioDelay: nat := 5000

  /** Length of the LED pulse that marks a motion alarm during a cycle, in milliseconds. */
  const AlarmPulse: nat := 100

  /** The controller's globals: the `washing` flag and the `radio_delay` deadline (a tick). */
  datatype State = State(washing: bool, deadline: nat)

  /** Both globals as the firmware initialises them: idle, deadline 0. */
  const Init: State := State(false, 0)

  /** The kinds of event the button driver delivers. */
  datatype ButtonEvent = Press | Release | Click | Hold

  /** The kinds of event the accelerometer driver delivers. */
  datatype AccEvent = AccError | AccUpdate | AccAlarm

  /**
   * One dispatch of a handler. `now` is the value the tick counter reads
   * during the call; a handler uses it only where the firmware reads the clock.
   */
  datatype Event =
    | Button(button: ButtonEvent, now: nat)
    | Acc(acc: AccEvent, now: nat)
    | Tick(now: nat)

  predicate IsPress(e: Event) {
    e.Button? && e.button == Press
  }

  /** An event that sets the deadline when it arrives during a cycle. */
  predicate IsRefresh(e: Event) {
    IsPress(e) || (e.Acc? && e.acc == AccAlarm)
  }

  /** A command to the LED driver: solid on, off, or a pulse of `ms` milliseconds. */
  datatype LedCall = On | Off | Pulse(ms: nat)

  /**
   * A radio publication: the push-button event, or a boolean on the topic
   * "washing/finished".
   */
  datatype Publication = PushButton | WashingFinished(value: bool)

  /** The one publication that announces the end of a cycle. */
  const Finished: Publication := WashingFinished(true)

  /** A call into the accelerometer driver: reading the latest sample. */
  datatype SensorCall = ReadSample

  /** The debug messages the handlers log: "updating", "not washing" and "finished". */
  datatype LogMessage = Updating | NotWashing | Done

  /** The driver calls a handler makes, in order for each driver. */
  datatype Calls = Calls(led: seq<LedCall>, radio: seq<Publication>, sensor: seq<SensorCall>, log: seq<LogMessage>)
  {
    /** These calls followed by `next`. */
    function Then(next: Calls): Calls {
      Calls(led + next.led, radio + next.radio, sensor + next.sensor, log + next.log)
    }
  }

  const NoCalls: Calls := Calls([], [], [], [])

  /** The state after a handler together with the driver calls it made. */
  datatype Effect = Effect(state: State, calls: Calls)

  /**
   * The button handler. A press starts a cycle, or refreshes the one already
   * running, whatever the state before: the LED goes solid on and the press
   * is published once. Other button events do nothing.
   */
  function ButtonEventHandler(s: State, button: ButtonEvent, now: nat): (r: Effect)
    ensures button == Press ==> r.state.washing && r.state.deadline == now + RadioDelay
    ensures button == Press ==> r.calls.radio == [PushButton] && r.calls.led == [On]
    ensures button == Press ==> r.calls.sensor == [] && r.calls.log == []
    ensures button != Press ==> r.state == s && r.calls == NoCalls
  {
    if button == Press then
      Effect(State(true, now + RadioDelay), Calls([On], [PushButton], [], []))
    else
      Effect(s, NoCalls)
  }

  /**
   * The accelerometer handler. It never starts or ends a cycle and never
   * publishes. An update only reads the sample; an alarm during a cycle moves
   * the deadline to `now + RadioDelay` and pulses the LED; anything else (an
   * alarm while idle, a driver error) is only logged.
   */
  function Lis2EventHandler(s: State, acc: AccEvent, now: nat): (r: Effect)
    ensures r.state.washing == s.washing
    ensures r.calls.radio == []
    ensures acc == AccAlarm && s.washing ==>
              r.state.deadline == now + RadioDelay && r.calls.led == [Pulse(AlarmPulse)]
    ensures !(acc == AccAlarm && s.washing) ==> r.state == s && r.calls.led == []
    ensures r.calls.sensor == if acc == AccUpdate then [ReadSample] else []
    ensures r.calls.log ==
              if acc == AccUpdate then []
              else if acc == AccAlarm && s.washing then [Updating]
              else [NotWashing]
  {
    if acc == AccUpdate then
      Effect(s, Calls([], [], [ReadSample], []))
    else if acc == AccAlarm && s.washing then
      Effect(s.(deadline := now + RadioDelay), Calls([Pulse(AlarmPulse)], [], [], [Updating]))
    else
      Effect(s, Calls([], [], [], [NotWashing]))
  }

  /**
   * The periodic application task. When a cycle is running and the clock
   * has reached its deadline (inclusive), the cycle ends: the LED goes off
   * and the end is published once. Otherwise nothing happens.
   */
  function ApplicationTask(s: State, now: nat): (r: Effect)
    ensures s.washing && now >= s.deadline ==>
              r.state == State(false, s.deadline) && r.calls.radio == [Finished] && r.calls.led == [Off]
              && r.calls.sensor == [] && r.calls.log == [Done]
    ensures !(s.washing && now >= s.deadline) ==> r.state == s && r.calls == NoCalls
  {
    if now >= s.deadline && s.washing then
      Effect(s.(washing := false), Calls([Off], [Finished], [], [Done]))
    else
      Effect(s, NoCalls)
  }

  /**
   * One dispatch of the cooperative runner: the handler the event belongs to
   * runs to completion. The contract is the controller's transition diagram:
   * only a press leaves Idle, only a tick at or past the deadline leaves
   * Washing, the deadline only ever moves to the time of a refresh plus
   * `RadioDelay`, and the radio carries one push-button event per press and
   * one end-of-cycle event per cycle ended, nothing else.
   */
  function Step(s: State, e: Event): (r: Effect)
    ensures !s.washing && r.state.washing <==> !s.washing && IsPress(e)
    ensures s.washing && !r.state.washing <==> s.washing && e.Tick? && e.now >= s.deadline
    ensures r.state.deadline != s.deadline ==> r.state.deadline == e.now + RadioDelay && IsRefresh(e)
    ensures IsPress(e) ==> r.state == State(true, e.now + RadioDelay)
    ensures r.calls.radio ==
              if IsPress(e) then [PushButton]
              else if s.washing && !r.state.washing then [Finished]
              else []
  {
    match e
    case Button(button, now) => ButtonEventHandler(s, button, now)
    case Acc(acc, now) => Lis2EventHandler(s, acc, now)
    case Tick(now) => ApplicationTask(s, now)
  }
}
