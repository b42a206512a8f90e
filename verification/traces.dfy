/**
 * Runs of the controller: input events from the listener threads, clicks on
 * the button and checks of the timer, interleaved in one sequence.
 */
module Traces {

  import opened Options
  import opened Countdown
  import opened Controller
  import ClockText

  datatype Event =
    | Input(at: real)   // mouse move, click or scroll, key press or release
    | Click             // the "I'm Active!" button
    | Check(at: real)   // the once-a-second check

  /** Delivers one event. A click only reaches the handler while the checks
      are running and the button is enabled. */
  function Step(s: App, e: Event): (r: App)
    requires WellFormed(s)
    ensures WellFormed(r)
    ensures r.platform == s.platform
    ensures !s.running ==> !r.running && r.issued == s.issued
    ensures e.Click? ==> r.lastActivity == s.lastActivity
  {
    match e
    case Input(t) => OnActivity(s, t)
    case Click => if s.running && s.buttonEnabled then ButtonClicked(s) else s
    case Check(t) => Tick(s, t)
  }

  /** Delivers the events in order. */
  function Run(s: App, events: seq<Event>): (r: App)
    requires WellFormed(s)
    ensures WellFormed(r)
    ensures r.platform == s.platform
    ensures !s.running ==> !r.running && r.issued == s.issued
    decreases |events|
  {
    if |events| == 0 then s else Run(Step(s, events[0]), events[1..])
  }

  /** The time of the last input event, or `t` when there is none. */
  function LastInput(events: seq<Event>, t: real): (last: real)
    decreases |events|
  {
    if |events| == 0 then t
    else LastInput(events[1..], if events[0].Input? then events[0].at else t)
  }

  /** The facts that hold of every state a run from launch reaches. */
  predicate Inv(s: App)
  {
    && WellFormed(s)
    && s.buttonEnabled == s.isCounting
    && (s.status == InactivityWarning) == s.isCounting
    && s.display.TimeLeft? == s.isCounting
    && |s.issued| <= 1
    && (s.running <==> s.issued == [])
    && (s.issued != [] ==> s.issued == [ShutdownCommand(s.platform)])
    && (s.isCounting ==>
          s.lastActivity + InactivityThreshold + ShutdownThreshold <= s.shutdownTime.value)
  }

  lemma LaunchInv(now: real, p: Platform)
    ensures Inv(Launch(now, p))
  {
  }

  lemma StepInv(s: App, e: Event)
    requires Inv(s)
    ensures Inv(Step(s, e))
  {
  }

  lemma {:induction false} RunInv(s: App, events: seq<Event>)
    requires Inv(s)
    ensures Inv(Run(s, events))
    decreases |events|
  {
    if |events| > 0 {
      StepInv(s, events[0]);
      RunInv(Step(s, events[0]), events[1..]);
    }
  }

  /** The last activity time of a run is the time of its last input event. */
  lemma {:induction false} RunLastActivity(s: App, events: seq<Event>)
    requires WellFormed(s)
    ensures Run(s, events).lastActivity == LastInput(events, s.lastActivity)
    decreases |events|
  {
    if |events| > 0 {
      RunLastActivity(Step(s, events[0]), events[1..]);
    }
  }

  /** Whatever happens, the shutdown command is issued at most once, and it is
      issued exactly when the checks have stopped. */
  lemma ShutdownAtMostOnce(now: real, p: Platform, events: seq<Event>)
    ensures var r := Run(Launch(now, p), events);
            && |r.issued| <= 1
            && (r.running <==> r.issued == [])
            && (r.issued != [] ==> r.issued == [ShutdownCommand(p)])
  {
    LaunchInv(now, p);
    RunInv(Launch(now, p), events);
  }

  /** After the shutdown command, checks change nothing at all: the controller
      is frozen apart from what input and clicks do to it. */
  lemma {:induction false} ShutdownIsFinal(s: App, events: seq<Event>)
    requires WellFormed(s) && !s.running
    requires forall i :: 0 <= i < |events| ==> events[i].Check?
    ensures Run(s, events) == s
    decreases |events|
  {
    if |events| > 0 {
      assert Step(s, events[0]) == s;
      ShutdownIsFinal(s, events[1..]);
    }
  }

  /** A check issues the shutdown command only once at least four minutes
      (one of inactivity, three of countdown) have passed since the last input. */
  lemma ShutdownOnlyAfterIdle(s: App, now: real)
    requires Inv(s)
    requires Tick(s, now).issued != s.issued
    ensures now - s.lastActivity >= InactivityThreshold + ShutdownThreshold
  {
  }

  /** The same for a whole run from launch: the check that shuts down comes at
      least 240 seconds after the last input event of the run, or after launch. */
  lemma ShutdownOnlyAfterIdleRun(t0: real, p: Platform, events: seq<Event>, now: real)
    ensures var s := Run(Launch(t0, p), events);
            Tick(s, now).issued != s.issued ==>
              now - LastInput(events, t0) >= InactivityThreshold + ShutdownThreshold
  {
    LaunchInv(t0, p);
    RunInv(Launch(t0, p), events);
    RunLastActivity(Launch(t0, p), events);
  }

  /** An input event cancels any countdown, and no check within the next
      minute starts a new one or shuts down. */
  lemma InputCancels(s: App, t: real, now: real)
    requires Inv(s) && now - t < InactivityThreshold
    ensures var a := Step(s, Input(t));
            && !a.isCounting && a.lastActivity == t
            && a.shutdownTime == s.shutdownTime && a.running == s.running
            && Tick(a, now) == a
  {
  }

  /** With no input at all, a check one minute after the last input starts the
      countdown and a check three minutes later shuts down. */
  lemma IdleLeadsToShutdown(s: App, t1: real, t2: real)
    requires Inv(s) && s.running && !s.isCounting
    requires t1 - s.lastActivity >= InactivityThreshold
    requires t2 >= t1 + ShutdownThreshold
    ensures var a := Run(s, [Check(t1)]);
            a.isCounting && a.running && a.shutdownTime == Some(t1 + ShutdownThreshold)
    ensures var b := Run(s, [Check(t1), Check(t2)]);
            !b.running && b.issued == s.issued + [ShutdownCommand(s.platform)]
  {
    var a := Step(s, Check(t1));
    assert Run(s, [Check(t1)]) == a by {
      assert [Check(t1)][1..] == [];
    }
    assert Run(s, [Check(t1), Check(t2)]) == Step(a, Check(t2)) by {
      assert [Check(t1), Check(t2)][1..] == [Check(t2)];
      assert [Check(t2)][1..] == [];
      assert Run(a, [Check(t2)]) == Step(a, Check(t2));
    }
  }

  /** The button ends the countdown but keeps the last activity time and the
      old deadline; if no input follows, the next check a minute or more after
      the last input starts a fresh countdown from that check. */
  lemma ClickRestartsCountdown(s: App, now: real)
    requires Inv(s) && s.running && s.isCounting
    requires now - s.lastActivity >= InactivityThreshold
    ensures var c := Step(s, Click);
            && !c.isCounting && c.running
            && c.lastActivity == s.lastActivity && c.shutdownTime == s.shutdownTime
            && c.notification == Some(ActivityConfirmed)
    ensures var r := Tick(Step(s, Click), now);
            r.isCounting && r.shutdownTime == Some(now + ShutdownThreshold)
  {
  }

  /** A click while the button is disabled changes nothing. */
  lemma IdleClickIgnored(s: App)
    requires Inv(s) && !s.isCounting
    ensures Step(s, Click) == s
  {
  }

  /** The time an event carries, or `t` for a click. */
  function TimeOf(e: Event, t: real): (at: real)
  {
    if e.Click? then t else e.at
  }

  /** The event times never go backwards, starting from `t`. */
  predicate Chronological(events: seq<Event>, t: real)
    decreases |events|
  {
    |events| == 0 ||
    (t <= TimeOf(events[0], t) && Chronological(events[1..], TimeOf(events[0], t)))
  }

  /** The countdown label shows at most three minutes and under sixty seconds. */
  predicate DisplayFits(d: Display)
  {
    d.TimeLeft? ==> d.minutes <= 3 && d.seconds < 60
  }

  /** At time `t`, no deadline is more than the grace period away and the label fits. */
  predicate Timely(s: App, t: real)
    requires WellFormed(s)
  {
    && (s.isCounting ==> s.shutdownTime.value <= t + ShutdownThreshold)
    && DisplayFits(s.display)
  }

  lemma StepTimely(s: App, e: Event, t: real)
    requires WellFormed(s) && Timely(s, t) && t <= TimeOf(e, t)
    ensures Timely(Step(s, e), TimeOf(e, t))
  {
    if e.Check? && s.running && s.isCounting && s.shutdownTime.value - e.at > 0.0 {
      TickShowsRemaining(s, e.at);
    }
  }

  lemma {:induction false} RunTimely(s: App, events: seq<Event>, t: real)
    requires WellFormed(s) && Timely(s, t) && Chronological(events, t)
    ensures DisplayFits(Run(s, events).display)
    decreases |events|
  {
    if |events| > 0 {
      StepTimely(s, events[0], t);
      RunTimely(Step(s, events[0]), events[1..], TimeOf(events[0], t));
    }
  }

  /** With a clock that never runs backwards, every countdown label of a run
      from launch reads `Time until shutdown: MM:SS` with two-digit fields,
      at most three minutes, and reads back as the time it shows. */
  lemma CountdownLabelFits(t0: real, p: Platform, events: seq<Event>)
    requires Chronological(events, t0)
    ensures var d := Run(Launch(t0, p), events).display;
            d.TimeLeft? ==>
              && d.minutes <= 3 && d.seconds < 60
              && |ClockText.Clock(d.minutes, d.seconds)| == 5
              && ClockText.ParseClock(ClockText.Clock(d.minutes, d.seconds)) == Some((d.minutes, d.seconds))
  {
    RunTimely(Launch(t0, p), events, t0);
    var d := Run(Launch(t0, p), events).display;
    if d.TimeLeft? {
      ClockText.ClockShape(d.minutes, d.seconds);
      ClockText.ClockRoundTrip(d.minutes, d.seconds);
    }
  }

  /** Activity at 0, no further input: the countdown starts at 60 with deadline
      240, shows 02:20 at 100, and the shutdown command is issued at 240. */
  lemma ScenarioIdleShutdown()
    ensures var s0 := Launch(0.0, Posix);
            var s1 := Step(s0, Check(60.0));
            var s2 := Step(s1, Check(100.0));
            var s3 := Step(s2, Check(240.0));
            && s1.isCounting && s1.shutdownTime == Some(240.0)
            && s2.display == TimeLeft(2, 20)
            && ClockText.Clock(2, 20) == "02:20"
            && s3.issued == ["shutdown -h now"] && !s3.running
  {
    var s0 := Launch(0.0, Posix);
    var s1 := Step(s0, Check(60.0));
    var s2 := Step(s1, Check(100.0));
    assert Trunc(140.0) == 140;
    assert s2.display == TimeLeft(2, 20);
  }

  /** Activity at 0, countdown from 65, button at 100: the countdown ends and
      no command is issued; but as the button does not count as input, the
      next check starts a new countdown, due at 281. */
  lemma ScenarioClickCancels()
    ensures var s1 := Step(Launch(0.0, Nt), Check(65.0));
            var s2 := Step(s1, Click);
            var s3 := Step(s2, Check(101.0));
            && s1.isCounting && s1.shutdownTime == Some(245.0)
            && !s2.isCounting && s2.issued == []
            && s3.isCounting && s3.shutdownTime == Some(281.0) && s3.issued == []
  {
  }
}
