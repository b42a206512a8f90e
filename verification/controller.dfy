/**
 * The inactivity controller with its windowing toolkit and input hooks
 * stripped away: an immutable record of the controller's fields and one pure
 * function per handler. The clock is a parameter of the handlers that read it.
 */
module Controller {

  import opened Options
  import opened Countdown
  import ClockText

  /** The operating system family, which picks the shutdown command. */
  datatype Platform = Nt | Posix

  /** The notifications the controller shows. */
  datatype Notice =
    | InactivityAlert
    | ActivityConfirmed
    | Urgent(secondsLeft: int)
    | ShutdownNotice

  /** What the countdown label says: the idle text, or the time left. */
  datatype Display = SystemActive | TimeLeft(minutes: nat, seconds: nat)

  /** What the status label says. */
  datatype Status = Monitoring | InactivityWarning

  /**
   * The controller's fields. `notification` is the single tracked
   * notification window; `shown` lists every notification presented so far
   * and `issued` every shutdown command handed to the operating system, so
   * that properties of whole runs can be stated.
   */
  datatype App = App(
    lastActivity: real,
    shutdownTime: Option<real>,
    isCounting: bool,
    running: bool,
    notification: Option<Notice>,
    shown: seq<Notice>,
    display: Display,
    status: Status,
    buttonEnabled: bool,
    platform: Platform,
    issued: seq<string>)

  /** While counting, a shutdown deadline has been set. */
  predicate WellFormed(s: App)
  {
    s.isCounting ==> s.shutdownTime.Some?
  }

  /** The command differs by platform; both invoke the `shutdown` program. */
  function ShutdownCommand(p: Platform): (cmd: string)
    ensures 9 < |cmd| && cmd[..9] == "shutdown "
    ensures p == Nt <==> cmd == "shutdown /s /t 1"
    ensures p == Posix <==> cmd == "shutdown -h now"
  {
    match p
    case Nt => "shutdown /s /t 1"
    case Posix => "shutdown -h now"
  }

  /** The text of the countdown label. */
  function DisplayText(d: Display): (t: string)
    ensures d.SystemActive? ==> t == "System active"
    ensures d.TimeLeft? ==>
              && 21 <= |t| && t[..21] == "Time until shutdown: "
              && ClockText.ParseClock(t[21..]) == Some((d.minutes, d.seconds))
  {
    if d.TimeLeft? then
      var c := ClockText.Clock(d.minutes, d.seconds);
      ClockText.ClockRoundTrip(d.minutes, d.seconds);
      assert ("Time until shutdown: " + c)[21..] == c;
      "Time until shutdown: " + c
    else
      "System active"
  }

  /** The fields as the constructor sets them before its first check. */
  function Initial(now: real, p: Platform): (s: App)
    ensures WellFormed(s)
    ensures s.lastActivity == now && s.shutdownTime == None && s.platform == p
    ensures s.running && !s.isCounting && !s.buttonEnabled && s.notification == None
    ensures s.shown == [] && s.issued == []
  {
    App(now, None, false, true, None, [], SystemActive, Monitoring, false, p, [])
  }

  /** Construction: the fields are initialised and the first check runs at once. */
  function Launch(now: real, p: Platform): (s: App)
    ensures s.lastActivity == now && s.shutdownTime == None && s.platform == p
    ensures s.running && !s.isCounting && !s.buttonEnabled
    ensures s.notification == None && s.shown == [] && s.issued == []
    ensures s.display == SystemActive && s.status == Monitoring
  {
    Tick(Initial(now, p), now)
  }

  /** Presents a notification, replacing the tracked one: afterwards exactly
      the newest notification is tracked, and nothing else changes. */
  function ShowNotification(s: App, n: Notice): (r: App)
    ensures r.notification == Some(n)
    ensures |r.shown| == |s.shown| + 1 && r.shown[..|s.shown|] == s.shown && r.shown[|s.shown|] == n
    ensures r.(notification := s.notification, shown := s.shown) == s
  {
    s.(notification := Some(n), shown := s.shown + [n])
  }

  /** Leaves the countdown: the widgets go back to idle and the tracked
      notification is closed, but the clock fields are kept. */
  function ResetCountdown(s: App): (r: App)
    ensures !r.isCounting && !r.buttonEnabled && r.notification == None
    ensures r.display == SystemActive && r.status == Monitoring
    ensures r.lastActivity == s.lastActivity && r.shutdownTime == s.shutdownTime
    ensures r.running == s.running && r.issued == s.issued && r.shown == s.shown
    ensures r.platform == s.platform
  {
    s.(isCounting := false, buttonEnabled := false, display := SystemActive,
       status := Monitoring, notification := None)
  }

  /** Any mouse or keyboard event at time `now`. */
  function OnActivity(s: App, now: real): (r: App)
    ensures r.lastActivity == now && !r.isCounting
    ensures r.shutdownTime == s.shutdownTime && r.running == s.running
    ensures r.issued == s.issued && r.shown == s.shown && r.platform == s.platform
    ensures !s.isCounting ==> r == s.(lastActivity := now)
    ensures s.isCounting ==> r == ResetCountdown(s).(lastActivity := now)
  {
    var s1 := s.(lastActivity := now);
    if s1.isCounting then ResetCountdown(s1) else s1
  }

  /** The "I'm Active!" button: reset, then confirm with a green notification.
      The last activity time is not refreshed. */
  function ButtonClicked(s: App): (r: App)
    ensures !r.isCounting && !r.buttonEnabled
    ensures r.display == SystemActive && r.status == Monitoring
    ensures r.notification == Some(ActivityConfirmed) && r.shown == s.shown + [ActivityConfirmed]
    ensures r.lastActivity == s.lastActivity && r.shutdownTime == s.shutdownTime
    ensures r.running == s.running && r.issued == s.issued && r.platform == s.platform
  {
    ShowNotification(ResetCountdown(s), ActivityConfirmed)
  }

  /** Stops the checks, shows the final notice and issues the platform's shutdown command. */
  function ShutdownComputer(s: App): (r: App)
    ensures !r.running
    ensures r.issued == s.issued + [ShutdownCommand(s.platform)]
    ensures r.shown == s.shown + [ShutdownNotice] && r.notification == Some(ShutdownNotice)
    ensures r.isCounting == s.isCounting && r.shutdownTime == s.shutdownTime
    ensures r.lastActivity == s.lastActivity && r.display == s.display && r.platform == s.platform
    ensures r.status == s.status && r.buttonEnabled == s.buttonEnabled
  {
    var s1 := ShowNotification(s.(running := false), ShutdownNotice);
    s1.(issued := s1.issued + [ShutdownCommand(s1.platform)])
  }

  /** Enters the countdown at time `now`. */
  function StartCountdown(s: App, now: real): (r: App)
    ensures r.isCounting && r.shutdownTime == Some(now + ShutdownThreshold)
    ensures r.buttonEnabled && r.status == InactivityWarning
    ensures r.notification == Some(InactivityAlert) && r.shown == s.shown + [InactivityAlert]
    ensures r.lastActivity == s.lastActivity && r.running == s.running
    ensures r.issued == s.issued && r.display == s.display && r.platform == s.platform
  {
    ShowNotification(
      s.(isCounting := true, shutdownTime := Some(now + ShutdownThreshold),
         buttonEnabled := true, status := InactivityWarning),
      InactivityAlert)
  }

  /** Shows the time left and, when due, the urgent notification. */
  function ShowRemaining(s: App, remaining: real): (r: App)
    requires 0.0 < remaining
    ensures r.display.TimeLeft? && r.display.seconds < 60
    ensures r.display.minutes * 60 + r.display.seconds == Trunc(remaining)
    ensures UrgentDue(remaining) ==>
              r.notification == Some(Urgent(Trunc(remaining)))
              && r.shown == s.shown + [Urgent(Trunc(remaining))]
    ensures !UrgentDue(remaining) ==> r.notification == s.notification && r.shown == s.shown
    ensures r.isCounting == s.isCounting && r.shutdownTime == s.shutdownTime
    ensures r.lastActivity == s.lastActivity && r.running == s.running && r.issued == s.issued
    ensures r.status == s.status && r.buttonEnabled == s.buttonEnabled && r.platform == s.platform
  {
    var ms := SplitRemaining(remaining);
    var s1 := s.(display := TimeLeft(ms.0, ms.1));
    if UrgentDue(remaining) then ShowNotification(s1, Urgent(Trunc(remaining))) else s1
  }

  /** The once-a-second check at time `now`. */
  function Tick(s: App, now: real): (r: App)
    requires WellFormed(s)
    ensures WellFormed(r)
    ensures r.lastActivity == s.lastActivity && r.platform == s.platform
    // a stopped controller ignores its ticks
    ensures !s.running ==> r == s
    // idle: the countdown starts exactly when the inactivity period is reached
    ensures s.running && !s.isCounting ==>
              (r.isCounting <==> now - s.lastActivity >= InactivityThreshold)
    ensures s.running && !s.isCounting && !r.isCounting ==> r == s
    ensures s.running && !s.isCounting && r.isCounting ==>
              && r.shutdownTime == Some(now + ShutdownThreshold)
              && r.running && r.issued == s.issued && r.buttonEnabled
              && r.shown == s.shown + [InactivityAlert]
              && r.display == TimeLeft(3, 0)
    // counting: the deadline stays, and the command is issued once it has passed
    ensures s.running && s.isCounting ==> r.isCounting && r.shutdownTime == s.shutdownTime
    ensures r.issued != s.issued <==>
              s.running && s.isCounting && s.shutdownTime.value - now <= 0.0
    ensures r.issued != s.issued ==>
              && r.issued == s.issued + [ShutdownCommand(s.platform)]
              && !r.running && r.shown == s.shown + [ShutdownNotice]
    ensures r.running <==> s.running && r.issued == s.issued
  {
    if !s.running then s
    else
      var s1 := if !s.isCounting && now - s.lastActivity >= InactivityThreshold
                then StartCountdown(s, now) else s;
      if !s1.isCounting then s1
      else
        var remaining := s1.shutdownTime.value - now;
        if remaining <= 0.0 then ShutdownComputer(s1) else ShowRemaining(s1, remaining)
  }

  /** On a counting tick that does not shut down, the label shows the whole
      seconds left as minutes and seconds, and the urgent notification is shown
      exactly when the guard holds. */
  lemma TickShowsRemaining(s: App, now: real)
    requires WellFormed(s) && s.running && s.isCounting
    requires now < s.shutdownTime.value
    ensures var r := Tick(s, now);
            var remaining := s.shutdownTime.value - now;
            && r.running && r.issued == s.issued
            && r.display.TimeLeft?
            && r.display.seconds < 60
            && r.display.minutes * 60 + r.display.seconds == Trunc(remaining)
            && (UrgentDue(remaining) ==> r.shown == s.shown + [Urgent(Trunc(remaining))]
                                         && r.notification == Some(Urgent(Trunc(remaining))))
            && (!UrgentDue(remaining) ==> r.shown == s.shown && r.notification == s.notification)
  {
  }

  /** The urgent notification is never presented on a tick that starts the
      countdown or that shuts down, nor with thirty or more seconds left. */
  lemma UrgentOnlyInLastThirtySeconds(s: App, now: real, k: int)
    requires WellFormed(s)
    requires Tick(s, now).shown == s.shown + [Urgent(k)]
    ensures s.running && s.isCounting
    ensures 0.0 < s.shutdownTime.value - now < UrgentWindow
    ensures k == Trunc(s.shutdownTime.value - now) && k % UrgentPeriod == 0
  {
    var r := Tick(s, now);
    assert r.shown[|s.shown|] == Urgent(k);
  }
}
