/**
 * A declarative description of the controller, independent of the handlers.
 *
 * The cycle is running after a trace exactly when the trace holds a press,
 * and no tick after the last press found the clock at or past the deadline
 * in force at that tick. While a cycle runs, that deadline is the clock
 * reading of the last refresh (press or alarm) plus `RadioDelay`. The
 * theorem at the end shows the fold of the handlers meets this description
 * on every trace, whatever the clock does.
 */
module Reference {
  import opened Application
  import opened Traces

  datatype Option<T> = None | Some(value: T)

  /** The clock reading of the last refresh event of `t`, if there is one. */
  function LastRefresh(t: seq<Event>): (r: Option<nat>)
    ensures r.None? <==> forall i :: 0 <= i < |t| ==> !IsRefresh(t[i])
    ensures r.Some? ==>
              exists i :: 0 <= i < |t| && IsRefresh(t[i]) && t[i].now == r.value
                          && forall j :: i < j < |t| ==> !IsRefresh(t[j])
    decreases |t|
  {
    if |t| == 0 then None
    else if IsRefresh(t[|t| - 1]) then Some(t[|t| - 1].now)
    else
      assert forall i :: 0 <= i < |t| - 1 ==> t[..|t| - 1][i] == t[i];
      LastRefresh(t[..|t| - 1])
  }

  /**
   * Event `j` of `t` is a tick that finds the clock at or past the last
   * refresh before it plus `RadioDelay`.
   */
  ghost predicate Expires(t: seq<Event>, j: int)
    requires 0 <= j < |t|
  {
    t[j].Tick? && LastRefresh(t[..j]).Some? && t[j].now >= LastRefresh(t[..j]).value + RadioDelay
  }

  /** Some press of `t` is followed by neither another press nor an expiring tick. */
  ghost predicate CycleRunning(t: seq<Event>) {
    exists i :: 0 <= i < |t| && IsPress(t[i])
                && forall j :: i < j < |t| ==> !IsPress(t[j]) && !Expires(t, j)
  }

  lemma LastRefreshSnoc(p: seq<Event>, e: Event)
    ensures LastRefresh(p + [e]) == if IsRefresh(e) then Some(e.now) else LastRefresh(p)
  {
    assert (p + [e])[..|p|] == p;
  }

  lemma ExpiresSnoc(p: seq<Event>, e: Event, j: int)
    requires 0 <= j < |p|
    ensures Expires(p + [e], j) == Expires(p, j)
  {
    assert (p + [e])[..j] == p[..j];
  }

  /** Extending a trace by one event: a press starts a cycle; anything else keeps one only if it does not expire it. */
  lemma CycleRunningSnoc(p: seq<Event>, e: Event)
    ensures CycleRunning(p + [e]) <==> IsPress(e) || (!Expires(p + [e], |p|) && CycleRunning(p))
  {
    var t := p + [e];
    forall j | 0 <= j < |p|
      ensures t[j] == p[j] && Expires(t, j) == Expires(p, j)
    {
      ExpiresSnoc(p, e, j);
    }
    if CycleRunning(t) {
      CycleRunningShrinks(p, e);
    }
    if IsPress(e) {
      assert IsPress(t[|p|]);
    } else if !Expires(t, |p|) && CycleRunning(p) {
      var i :| 0 <= i < |p| && IsPress(p[i]) && forall j :: i < j < |p| ==> !IsPress(p[j]) && !Expires(p, j);
      assert IsPress(t[i]) && forall j :: i < j < |t| ==> !IsPress(t[j]) && !Expires(t, j);
    }
  }

  lemma CycleRunningShrinks(p: seq<Event>, e: Event)
    requires forall j :: 0 <= j < |p| ==> (p + [e])[j] == p[j] && Expires(p + [e], j) == Expires(p, j)
    requires CycleRunning(p + [e])
    ensures IsPress(e) || (!Expires(p + [e], |p|) && CycleRunning(p))
  {
    var t := p + [e];
    var i :| 0 <= i < |t| && IsPress(t[i]) && forall j :: i < j < |t| ==> !IsPress(t[j]) && !Expires(t, j);
    if i < |p| {
      assert !IsPress(t[|p|]) && !Expires(t, |p|);
      assert IsPress(p[i]) && forall j :: i < j < |p| ==> !IsPress(p[j]) && !Expires(p, j);
    }
  }

  /**
   * The fold of the handlers meets the declarative description on every
   * trace from power-up: `washing` holds exactly when a cycle is running,
   * and then the deadline is the last refresh plus `RadioDelay`, so it is
   * never earlier than the tick at which it was last set.
   */
  lemma {:induction false} RunMatchesReference(t: seq<Event>)
    ensures Run(Init, t).state.washing <==> CycleRunning(t)
    ensures Run(Init, t).state.washing ==>
              LastRefresh(t).Some? && Run(Init, t).state.deadline == LastRefresh(t).value + RadioDelay
    decreases |t|
  {
    if |t| > 0 {
      var p, e := t[..|t| - 1], t[|t| - 1];
      assert t == p + [e];
      RunMatchesReference(p);
      RunSnoc(Init, p, e);
      LastRefreshSnoc(p, e);
      CycleRunningSnoc(p, e);
      assert t[..|p|] == p;
    }
  }
}
