# StayAlive inactivity controller, modelled in Dafny

StayAlive is a desktop utility that watches global mouse and keyboard input.
After one minute without input it starts a three-minute countdown, during
which an "I'm Active!" button cancels it. When the countdown runs out it
issues the operating system's shutdown command. This project models the
controller at its heart, the `InactivityShutdownApp` class. Its fields are an
immutable record. Each handler (input event, button click, once-a-second
check, shutdown) is a pure function of that record and, where the handler
reads the clock, of the current time.

Modules:

- `Countdown` (countdown.dfy): the two thresholds (60 s and 180 s), Python's
  `int()` as truncation toward zero, `divmod` by 60 for the `MM:SS` label,
  and the urgent-notification guard.
- `ClockText` (clock_text.dfy): `{:02d}` formatting of minutes and seconds,
  with a reader that recovers them.
- `Dimensions` (dimensions.dfy): the padding and min/max clamp of a
  notification window's size.
- `Controller` (controller.dfy): the state record and the handlers
  `OnActivity`, `ButtonClicked`, `ResetCountdown`, `Tick` (the periodic
  check) and `ShutdownComputer`.
- `Traces` (traces.dfy): runs of interleaved input, click and check
  events, an invariant of every reachable state, and properties of whole runs.
- `Options` (options.dfy): `None` or a value.

Modelling choices:

- Timestamps are exact `real`s, not floats.
- The state record has two extra fields that the class does not have.
  `shown` lists every notification presented so far. `issued` lists every
  shutdown command handed to the operating system. They let a property talk
  about what one check presented or issued.
- Input from the listener threads is an ordinary event between checks. Each
  input lands whole, either before a check starts or after it ends.
- A click on the button is an event of its own. The input event that the
  same physical click produces through the mouse listener is a separate
  `Input` event. A run may contain the click without it.
- A click reaches the handler only while `running` holds and the button is
  enabled. The toolkit ignores clicks on a disabled button. In the model, the
  shutdown handler runs as one step, so no click can arrive during it.
- The constructor's first check runs at construction time. `Launch` models
  it, and it never changes anything.

Three details of the code that a reader might expect to work otherwise:

- Resetting the countdown (StayAlive.py:102-115) leaves `shutdown_time` set.
  Of the two countdown fields, only `is_counting` is cleared. The labels,
  the button and the tracked notification are reset as well. The stale
  deadline is never read again, because a new countdown sets a fresh one.
- The button does not refresh the last activity time. The window's
  instructions (StayAlive.py:52-54) and the confirmation "Shutdown cancelled!
  Continue working." (StayAlive.py:100) say that a click cancels the
  shutdown. But with no input after the click, the next check starts a new
  three-minute countdown at once, because the last input is still more than
  a minute old (`Traces.ClickRestartsCountdown`,
  `Traces.ScenarioClickCancels`). When the mouse listener also reports the
  click, the input event refreshes the time, so the click does cancel.
- An input event during the countdown (StayAlive.py:93-96) ends the
  countdown. It does not start a new one: a new countdown starts only after
  another full minute without input (`OnActivity`, `Traces.InputCancels`).

## Model

| member | source | states |
|---|---|---|
| `Countdown.Trunc` | StayAlive.py:226 | `int()` truncates toward zero: for a non-negative time the result is the largest whole number not above it, and for a negative time the smallest not below it |
| `Countdown.DivMod` | StayAlive.py:226 | `divmod` by a positive divisor gives a remainder in `[0, d)` and quotient·d + remainder equal to the dividend |
| `Countdown.SplitRemaining` | StayAlive.py:221-227 | for time left above zero, the seconds field is below 60, minutes·60 + seconds is the whole seconds left, that count is within one second below the exact time left, and with at most 180 s left the minutes field is at most 3 |
| `Countdown.UrgentOnWholeSeconds` | StayAlive.py:231 | with a whole number of seconds left between 1 and 180, the urgent guard holds exactly at 5, 10, 15, 20 and 25 |
| `Countdown.UrgentDue` | StayAlive.py:231 | the urgent guard never holds with 30 s or more left; with time left above zero it holds exactly when under 30 s remain and the whole seconds left are 0, 5, 10, 15, 20 or 25 |
| `Controller.ShutdownCommand` | StayAlive.py:248 | both platforms call the `shutdown` program; Windows exactly gets `shutdown /s /t 1` and every other platform `shutdown -h now` |
| `Controller.StartCountdown` | StayAlive.py:209-218 | entering the countdown sets counting, a deadline 180 s after now, the enabled button, the warning status and the inactivity alert; last activity time, running flag, shutdown record and label are unchanged |
| `Controller.ShowRemaining` | StayAlive.py:224-234 | the label shows the whole seconds left as minutes and seconds under 60; the urgent notice with those seconds is presented exactly when the guard holds, and otherwise the notification slot is unchanged; the clock fields, status, button and platform are untouched |
| `Controller.ShowNotification` | StayAlive.py:135-144 | presenting a notice makes it the one tracked notification, replacing any earlier one, appends it to the presented notices, and changes nothing else |
| `ClockText.Clock` | StayAlive.py:227 | the `MM:SS` text has at least five characters, and exactly five with the colon third when both fields are below 100 |
| `Controller.DisplayText` | StayAlive.py:227 | the idle label reads `System active`; a countdown label starts `Time until shutdown: ` and the rest reads back as the minutes and seconds it shows |
| `Controller.Initial` | StayAlive.py:25-29 | the constructor's fields: last activity at construction time, no deadline, not counting, running, no notification, no shutdown issued |
| `Dimensions.Clamp` | StayAlive.py:129-130 | `max(lo, min(x, hi))` lies in `[lo, hi]`, is `x` when `x` is in range, and is the violated bound otherwise |
| `Dimensions.TextDimensions` | StayAlive.py:125-130 | the window width lies in [300, 500] and the height in [100, 300] for any measured size; each is the padded measurement (+40, +80) when that is in range and the nearer bound otherwise |
| `Dimensions.ClampIdempotent` | StayAlive.py:129-130 | clamping an already clamped value returns it unchanged |
| `Dimensions.ClampMonotone` | StayAlive.py:129-130 | a larger measurement never gives a smaller clamped size |
| `Dimensions.DimensionsClampIdempotent` | StayAlive.py:129-130 | clamping a computed window size again leaves both dimensions unchanged |
| `ClockText.Decimal` | StayAlive.py:227 | the numeral has only digits, one digit exactly below 10, at most two below 100 |
| `ClockText.DecimalRoundTrip` | StayAlive.py:227 | reading a numeral back gives the number it was written from |
| `ClockText.Pad2` | StayAlive.py:227 | `{:02d}` gives at least two digits, exactly two below 100, and reads back as the number |
| `ClockText.ClockRoundTrip` | StayAlive.py:227 | the `MM:SS` text of any minutes and seconds reads back as those two numbers |
| `ClockText.ClockShape` | StayAlive.py:227 | with minutes below 100 and seconds below 60 the text is five characters: two digits, a colon, two digits |
| `Controller.Launch` | StayAlive.py:24-38 | after construction and the first check the controller is running and idle, with the last activity at construction time, no deadline, no notification and no shutdown issued |
| `Controller.ResetCountdown` | StayAlive.py:102-115 | reset ends the countdown, disables the button, returns both labels to their idle text and closes the tracked notification; it keeps the last activity time, the old deadline, the running flag and the shutdown record |
| `Controller.OnActivity` | StayAlive.py:93-96 | an input event sets the last activity time to its own time and leaves the controller not counting; a running countdown is reset; the deadline, running flag and shutdown record are untouched; when not counting nothing else changes |
| `Controller.ButtonClicked` | StayAlive.py:98-100 | a click resets the countdown, disables the button, returns the countdown label to `System active` and the status to monitoring, and leaves a green confirmation as the tracked notification; the last activity time and the deadline stay as they were |
| `Controller.ShutdownComputer` | StayAlive.py:239-248 | shutdown stops the checks, presents the final notice and issues the shutdown command chosen by the platform, once; the countdown fields, labels, status and enabled button are left as they were |
| `Controller.Tick` | StayAlive.py:201-237 | a stopped controller ignores the check; an idle one starts counting exactly when 60 s have passed since the last input, with deadline now + 180 s, the alert shown and no shutdown on that check; a counting one keeps its deadline and issues the shutdown command exactly when the deadline has been reached; the last activity time is never changed |
| `Controller.TickShowsRemaining` | StayAlive.py:220-234 | on a counting check before the deadline, the label shows the whole seconds left as minutes and seconds; the urgent notification with those seconds is presented exactly when the guard holds, and otherwise nothing is presented |
| `Controller.UrgentOnlyInLastThirtySeconds` | StayAlive.py:220-234 | a check that presents an urgent notification was a counting check that did not shut down, with under 30 s left and a multiple of five whole seconds left |
| `Traces.Step` | StayAlive.py:81-100 | each event keeps the state well formed; once stopped the controller stays stopped and issues nothing more; a click does not change the last activity time |
| `Traces.Run` | StayAlive.py:201-203 | a run keeps the state well formed and, once the controller is stopped, issues nothing more |
| `Traces.RunInv` | StayAlive.py:201-223 | every event preserves the invariant: button enabled, warning status and countdown label exactly while counting; at most one shutdown command, present exactly when stopped; while counting, the deadline is at least 240 s after the last input |
| `Traces.RunLastActivity` | StayAlive.py:93-94 | after a run the last activity time is the time of the run's last input event, or the initial one if there is none |
| `Traces.ShutdownAtMostOnce` | StayAlive.py:239-240 | over any run from launch the shutdown command is issued at most once, it is the platform's command, and it has been issued exactly when the checks have stopped |
| `Traces.ShutdownIsFinal` | StayAlive.py:201-203 | after shutdown, any number of checks leaves the controller exactly as it was |
| `Traces.ShutdownOnlyAfterIdle` | StayAlive.py:206-223 | a check in a reachable state issues shutdown only when at least 240 s have passed since the last input |
| `Traces.ShutdownOnlyAfterIdleRun` | StayAlive.py:206-223 | in any run from launch, the check that shuts down comes at least 240 s after the run's last input event, or after launch |
| `Traces.InputCancels` | StayAlive.py:93-96 | an input event ends any countdown and keeps the deadline and running flag; any check within the next minute changes nothing |
| `Traces.IdleLeadsToShutdown` | StayAlive.py:206-223 | with no input, a check 60 s after the last input starts a countdown due 180 s later, and a check at or after that deadline issues the shutdown command |
| `Traces.ClickRestartsCountdown` | StayAlive.py:98-107 | the button ends the countdown but keeps the last activity time and the old deadline; with no input in between, the next check a minute or more after the last input starts a fresh countdown due 180 s after that check |
| `Traces.IdleClickIgnored` | StayAlive.py:66-67 | a click while the button is disabled changes nothing |
| `Traces.CountdownLabelFits` | StayAlive.py:221-227 | with a clock that never goes backwards, every countdown label of a run from launch shows at most three minutes and under 60 seconds, as five characters `MM:SS` that read back as the time shown |
| `Traces.ScenarioIdleShutdown` | StayAlive.py:206-227 | input at 0 and no more: counting from 60 with deadline 240, label `02:20` at 100, shutdown command issued at 240 |
| `Traces.ScenarioClickCancels` | StayAlive.py:98-107 | input at 0, counting from 65, click at 100: no command issued, but the check at 101 starts a new countdown due at 281 |

## Left out

- Window construction and styling (`setup_gui`, labels, fonts, grid layout): presentation only. The label texts are kept as the `Display` and `Status` values.
- The close-button warning (`on_close_attempt`): a modal dialog that changes no controller state.
- Notification windows (`show_notification`): only the tracked slot is modelled, which the newest notification overwrites and reset clears. Not modelled: window creation, the colour triples, the placement at `screen_width - width - 20`, the label wrap width, and the OK button.
- Automatic closing of a notification after 5 seconds, and the swallowed `destroy()` errors: closing the window does not clear the tracked reference in the source either.
- Text measurement in `calculate_text_dimensions`: `winfo_reqwidth` and `winfo_reqheight` are foreign toolkit calls, so the measured size is a parameter. The line count computed there is never used.
- Input listener threads (`start_input_monitoring`): each callback is an `Input` event placed between checks.
- Operating system and event-loop effects: `os.system`, `time.sleep(2)`, `root.update()`, `root.destroy()` and the `after(1000, …)` rescheduling. The shutdown command is recorded in `issued`, not run. A check is an event, not a timer.
- Input after shutdown: the model applies all of `reset_countdown`. In the source, `reset_countdown` fails at StayAlive.py:104 on the destroyed window, just after it clears `is_counting` at StayAlive.py:103. So the labels and the tracked notification are not reset there, while `OnActivity` resets them.
- `Controller.ShutdownComputer`: events pending during shutdown are not modelled. `running` becomes false at StayAlive.py:240, but the window is destroyed only at StayAlive.py:247. In between, `temp_label.update()` (StayAlive.py:121, reached from StayAlive.py:242) and `root.update()` (StayAlive.py:245) dispatch pending events. A pending click on the still-enabled button then runs `button_clicked`. That leaves `is_counting` false and the green confirmation tracked, while the shutdown command is still issued.
- `Traces.ShutdownOnlyAfterIdle`: the 240-second bound rests on each input event landing whole between checks. In the source, a listener thread can write `last_activity_time` after StayAlive.py:206 has read it and before StayAlive.py:210 starts the countdown. The countdown then starts just after an input, and the bound no longer holds.
- Floating-point time: `time.time()` returns floats. Here time is exact, so rounding of timestamp differences is not modelled.
- `Traces.CountdownLabelFits`: the bound of three minutes needs a clock that never goes backwards. `time.time()` gives no such guarantee, so the lemma assumes it.
