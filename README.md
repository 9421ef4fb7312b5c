# Screen Area Monitor — a Dafny model of its capture logic

The Screen Area Monitor is a small desktop tool (`gui.py`, Python and
tkinter). The user drags a rectangle over the screen. The tool then grabs
that region every half second and keeps only the grabs that changed enough
from the last kept one. It saves each kept grab as a PNG in the fixed
directory `screen_captures` and shows it at the top of a scrolling list.

This project models the four pieces of sequential logic inside the window
class and proves what they promise:

- `AreaSelector` (`area_selector.dfy`): turning the two corners of the
  mouse drag into the selected region, with its strict minimum size of more
  than 10 pixels in each direction.
- `Monitor` (`monitor.dfy`): the monitor thread's capture-acceptance loop.
  `MonitorLoop` is the loop itself, a `while` loop that reassigns its
  baseline. It is proved equal to the recursive specification `Run` /
  `LoopEvents`, and the lemmas state what that specification guarantees.
  The first grab is always reported. Each later grab is compared with the
  last ACCEPTED image, and it is accepted only if some pixel differs and the
  change percentage is strictly above the threshold read in that iteration.
  An error is reported once and ends the loop.
- `ScreenMonitor` (`screen_monitor_app.dfy`): the window's controller state
  as a class `ScreenMonitorApp`. It holds the selected region, the
  `monitoring` flag, whether a monitor thread exists, the enabled state of
  the Select, Start and Stop buttons, and the scrollable panel's frames with
  their grid rows. The object invariant `Valid()` says the buttons always
  follow the state. Start is enabled exactly when not monitoring and a region
  is set, Stop exactly when monitoring, and Select exactly when not
  monitoring. It also says the panel is newest first.
- `Wrappers` (`wrappers.dfy`): `Option`, and `Outcome` for a call that
  returns a value or raises.

The library calls are outside the model: the screen grab, the image
difference and its bounding box, the percentage metric, saving and opening
files. Each grab and each save is an `Outcome` given to the loop. Whether
two images differ, and by what percentage, come from the two functions of a
`Comparator`. These are total functions, so they cannot fail. The loop runs
while the `monitoring` flag is set. In the model the end of the sequence of
polls stands for the loop seeing the flag cleared. The iteration already
under way when Stop is pressed is simply one more poll.

Details of the code's behaviour that the model keeps:

- All captures go to the one directory `screen_captures` (gui.py:10,
  161-163). No directory is created per session.
- The directory is created before the `try` block (gui.py:162-163), so a
  failure to create it ends the thread without reporting anything. `Run`
  returns no events in that case.
- The change percentage is not an RMS measure. It is whatever
  `calc_pct_diff` computes (gui.py:147-156), so the model keeps it as an
  uninterpreted function. Identical grabs are rejected by the
  bounding-box test (gui.py:184) before the percentage is computed. The
  model states the library fact behind this as the hypothesis
  `NoSelfDifference` (an image never differs from itself).
- Starting without a region shows an error dialog and changes nothing
  (gui.py:126-128). It does not raise.
- The threshold is the slider's integer value, read anew in each iteration
  (gui.py:185). The percentage is a float. `Exceeds` compares
  `pct > threshold as real`.
- When a save after acceptance fails, the baseline has already been
  replaced (gui.py:190, then 194). The loop ends at once, so this is not
  observable in the events.

## Model

| member | source | states |
|---|---|---|
| `AreaSelector.SelectedRegion` | gui.py:289-301 | A region is produced iff the horizontal and the vertical distance between the two corners are both strictly greater than 10. The region spans exactly the two corners (`{left, right}` are the two x coordinates, with left ≤ right, and likewise for top and bottom), and it is always large enough. |
| `AreaSelector.SelectionIgnoresDragDirection` | gui.py:293-296 | Dragging between the same two opposite corners in any of the four directions selects the same region. |
| `AreaSelector.ExactMinimumRejected` | gui.py:298-299 | A drag exactly 10 wide or exactly 10 tall selects nothing. One of 11 by 11 selects that region. |
| `Monitor.MonitorLoop` | gui.py:159-200 | The loop's reported events are exactly `Run` of its inputs. When the last event is a capture, the final baseline `last_capture` is that capture's image. |
| `Monitor.RunReports` | gui.py:165-175 | With the directory in place, a successful first grab and save is always reported first. A failed first grab or first save reports exactly one error and skips the loop. In every run an error can only be the last event. |
| `Monitor.FailureEndsLoop` | gui.py:198-200 | Inside the loop every event before the last is a capture. At most one error is reported, and nothing follows it. |
| `Monitor.AtMostOneEventPerPoll` | gui.py:177-200 | Each iteration reports at most one event. |
| `Monitor.LoopSplit` | gui.py:177-190 | Suppose the loop gets through a first stretch of polls without failing (`RunsClean`): every grab succeeds, and so does the save of every accepted grab. Then running the loop over that stretch and another one in turn is the same as running it over both. The second stretch starts from the baseline the first left behind. |
| `Monitor.BaselineIsLastCapture` | gui.py:181-190 | The baseline changes only on acceptance. After polls the loop gets through without failing, the baseline equals the image of the last capture reported. If nothing was reported, it is the starting image. |
| `Monitor.DecisionAt` | gui.py:180-197 | Take a poll `i` whose grab succeeds, reached without failure. Its grab is accepted iff it differs from the last image captured before it and its change percentage is strictly above that iteration's threshold. An accepted grab is reported and becomes the baseline for what follows. If its save fails instead, that error is the last event. A rejected grab leaves no trace: its save never runs, and the baseline stays. |
| `Monitor.FailureAt` | gui.py:179-200 | A failed grab at poll `i`, reached without failure, adds exactly one error after the events before it and ends the loop. |
| `Monitor.IdenticalGrabNeverCaptured` | gui.py:181-189 | Assume an image never differs from itself (`NoSelfDifference`). Then a grab identical to the last image captured before it is never captured, whatever the percentage and threshold: it leaves no trace, and the loop continues from the same baseline. |
| `Monitor.UnchangedScreenCapturedOnce` | gui.py:165-189 | Assume an image never differs from itself. If every grab is identical to the first, the run reports the first grab and nothing else. |
| `Monitor.CapturesExceedPredecessor` | gui.py:181-190 | With every threshold at least `t`, each capture differs from the previously accepted image by strictly more than `t` percent. A capture is only ever preceded by a capture. |
| `Monitor.RunCapturesExceedPredecessor` | gui.py:165-197 | The same for a whole run: each capture after the first differs from the capture reported just before it by more than the threshold. |
| `Monitor.NoChangeNoCapture` | gui.py:184-189 | Grabs that never differ from the baseline, or whose change is at most the threshold (a tie included), are never captured. |
| `Monitor.ThresholdScenario` | gui.py:165-197 | Grabs A, A, B, C at threshold 10. B is 10% from A, C is 15% from A, and C is only 10% from B. Only A and C are captured. B loses the tie. C is captured only because it is compared with A, the last accepted image: against the previous grab B it would not exceed the threshold. |
| `ScreenMonitor.InsertedKeepsNewestOnTop` | gui.py:229-235 | If each frame sits on the row equal to the number of frames created after it, the same holds after an insertion. |
| `ScreenMonitor.InsertedKeepsOrder` | gui.py:229-235 | Insertion keeps the relative order of the existing frames and the distinctness of their rows, and places the new frame above all of them. |
| `ScreenMonitor.NewestOnTopOrdersRows` | gui.py:229-235 | In a newest-first panel the rows are distinct, lie in `0..n-1`, and a later frame is always above an earlier one. |
| `ScreenMonitor.ButtonsMatchState` | gui.py:124-145 | While the window is open, monitoring leaves only Stop enabled, and an enabled Start button implies a region is selected. |
| `ScreenMonitor.ScreenMonitorApp.constructor` | gui.py:20-50 | The window opens with no region, not monitoring, only Select enabled and an empty panel. |
| `ScreenMonitor.ScreenMonitorApp.SelectArea` | gui.py:107-122 | A selection that produces a region sets `bbox` and enables Start. A cancelled or too small selection changes nothing, so a region once set is never cleared. |
| `ScreenMonitor.ScreenMonitorApp.StartMonitoring` | gui.py:124-137 | With no region it leaves all state unchanged. Otherwise it sets `monitoring`, starts the thread, and leaves only Stop enabled. |
| `ScreenMonitor.ScreenMonitorApp.StopMonitoring` | gui.py:139-145 | It clears `monitoring`, enables Start and Select, disables Stop, and keeps the region. |
| `ScreenMonitor.ScreenMonitorApp.HandleMonitoringError` | gui.py:202-205 | An error from the thread has the same effect on the state as Stop. |
| `ScreenMonitor.ScreenMonitorApp.AddCaptureToGui` | gui.py:207-242 | If the file opens, a frame is appended, every existing frame moves down one row (`rows == Inserted(old(rows))`) and the new frame is on row 0, keeping the panel newest first. Otherwise nothing changes. |
| `ScreenMonitor.ScreenMonitorApp.DeliverEvents` | gui.py:172-199 | Running the scheduled callbacks in order appends the captured paths to the panel in the order reported. An error among them leaves the window stopped, and captures alone leave the monitoring state as it was. |
| `ScreenMonitor.ScreenMonitorApp.OnClosing` | gui.py:244-250 | Closing clears `monitoring` and destroys the window. |

## Left out

- Widget construction, layout, the canvas and scrollbar, the status label text, the slider label (`update_sensitivity_label`) and mouse-wheel scrolling (gui.py:30-104, 238-239): presentation only.
- The error dialogs (`messagebox.showerror`, gui.py:127, 204): shown to the user, they change no state of the model.
- Threads, `self.after` marshalling, `time.sleep(0.5)` and `join(timeout=1)`: concurrency and timing. The loop is modelled sequentially, with the end of its input standing for the `monitoring` flag being cleared. The callbacks it schedules are delivered in order by `DeliverEvents`.
- `calc_pct_diff` (gui.py:147-156): it depends on the imaging library's 1-bit conversion and histogram, and it uses float arithmetic. It is the uninterpreted `pct` of a `Comparator`, and `differs` stands for `diff.getbbox()`.
- Screen grab, saving, opening and thumbnailing images, and directory creation: library and filesystem calls. They appear as `Outcome` values (and `dirReady`, `opens`) given to the model.
- Exceptions from the other calls in the loop's `try` block: the image difference (for example on mismatched sizes), `getbbox`, reading the slider, `calc_pct_diff` and the timestamp formatting (gui.py:181-193). The model's `differs` and `pct` are total and cannot raise. Such an exception can only be modelled as a failed grab of that poll. The observable effect is the same: one `Failed(str(e))` event, and the loop ends (gui.py:198-200).
- Overlapping monitor threads: the flag is checked only once per iteration, before the 0.5 s sleep (gui.py:177-178). If the user presses Stop and then Start within one sleep (gui.py:141, 130), the old loop never sees the flag cleared. It keeps running beside the new thread, and both report captures into the panel. The model runs one loop at a time and does not capture this interleaving.
- Capture file names built from `datetime.now()` (gui.py:168-170, 191-193): clock and formatting. A successful save yields an opaque path.
- The rectangle drawn during the drag (gui.py:277-287, 303-305): canvas drawing. Corner coordinates are taken as integers, so the float coordinates of the canvas and the `int()` truncation at gui.py:299 are not modelled.
- `SelectArea`: it requires the Select button to be enabled, because the button is its only caller and a disabled button cannot be pressed. Called while monitoring, the source would re-enable Start.
- `StopMonitoring` and `HandleMonitoringError`: they require that a monitor thread has been started. Their callers are the Stop button, which is enabled only while monitoring, and the error callback, which only a started thread schedules.
- `DeliverEvents`: it assumes every freshly saved capture file opens. `AddCaptureToGui` alone models a file that fails to open.
- The `image_references` list (gui.py:216): it keeps thumbnails alive for the toolkit and has no effect on the logic.
