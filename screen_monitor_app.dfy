/** The main window's controller state: the selected region, the monitoring
    flag, the enabled state of the three buttons, and the list of capture
    frames shown newest first in the scrollable panel. */
module ScreenMonitor {
  import opened Wrappers
  import opened AreaSelector
  import opened Monitor

  /** The grid rows of the capture frames, listed in the order the frames
      were created, put each frame `k` places from the newest on row `k`:
      the newest capture is on top. */
  predicate NewestOnTop(rows: seq<int>) {
    forall i | 0 <= i < |rows| :: rows[i] == |rows| - 1 - i
  }

  /** The grid rows after a new frame is created and moved to the top: every
      existing frame one row down, the new one on row 0. */
  function Inserted(rows: seq<int>): seq<int> {
    seq(|rows| + 1, i requires 0 <= i <= |rows| => if i < |rows| then rows[i] + 1 else 0)
  }

  /** The paths of the captures among `events`, in the order reported. */
  function CapturedPaths<Image>(events: seq<Event<Image>>): seq<string>
    decreases |events|
  {
    if events == [] then []
    else
      var last := events[|events| - 1];
      CapturedPaths(events[..|events| - 1]) + if last.Captured? then [last.path] else []
  }

  /** Inserting a capture keeps the panel newest first. */
  lemma InsertedKeepsNewestOnTop(rows: seq<int>)
    requires NewestOnTop(rows)
    ensures NewestOnTop(Inserted(rows))
  {
  }

  /** Inserting keeps the relative order of the frames already shown, keeps
      their rows distinct, and puts the new frame above all of them. */
  lemma InsertedKeepsOrder(rows: seq<int>)
    requires forall i | 0 <= i < |rows| :: rows[i] >= 0
    ensures forall i, j | 0 <= i < |rows| && 0 <= j < |rows| ::
      (Inserted(rows)[i] < Inserted(rows)[j] <==> rows[i] < rows[j])
    ensures forall i | 0 <= i < |rows| :: Inserted(rows)[|rows|] < Inserted(rows)[i]
  {
  }

  /** In a newest-first panel the rows are distinct and decrease with age
      order: a later frame is always above an earlier one. */
  lemma NewestOnTopOrdersRows(rows: seq<int>)
    requires NewestOnTop(rows)
    ensures forall i, j | 0 <= i < j < |rows| :: rows[j] < rows[i]
    ensures forall i | 0 <= i < |rows| :: 0 <= rows[i] < |rows|
  {
  }

  class ScreenMonitorApp {
    /** The selected region (`self.bbox`). */
    var bbox: Option<Region>
    /** The flag the monitor loop polls (`self.monitoring`). */
    var monitoring: bool
    /** A monitor thread has been started (`self.monitor_thread` is set). */
    var hasMonitorThread: bool
    /** The window has been destroyed. */
    var closed: bool
    var selectEnabled: bool
    var startEnabled: bool
    var stopEnabled: bool
    /** The capture frames of the scrollable panel, by file path, in the
        order they were created. */
    var frames: seq<string>
    /** The grid row of each frame in `frames`. */
    var rows: seq<int>

    /** While the window is open the buttons follow the state: Select is
        enabled exactly when not monitoring, Start exactly when not
        monitoring and a region is selected, Stop exactly when monitoring.
        A region, once selected, is always large enough, and one is set
        whenever a monitor thread exists. The panel is newest first. */
    ghost predicate Valid()
      reads this
    {
      && (bbox.Some? ==> Sized(bbox.value))
      && (hasMonitorThread ==> bbox.Some?)
      && (monitoring ==> hasMonitorThread)
      && (!closed ==>
            && selectEnabled == !monitoring
            && startEnabled == (!monitoring && bbox.Some?)
            && stopEnabled == monitoring)
      && |rows| == |frames|
      && NewestOnTop(rows)
    }

    /** The window as it opens: nothing selected, not monitoring, only
        Select enabled, no captures shown. */
    constructor ()
      ensures Valid()
      ensures bbox == None && !monitoring && !hasMonitorThread && !closed
      ensures selectEnabled && !startEnabled && !stopEnabled
      ensures frames == [] && rows == []
    {
      bbox := None;
      monitoring := false;
      hasMonitorThread := false;
      closed := false;
      selectEnabled, startEnabled, stopEnabled := true, false, false;
      frames, rows := [], [];
    }

    /** The Select button: run the area selector (`drag` is `None` when it
        is closed with Escape) and keep its region if it produced one. A
        cancelled or too small selection leaves everything as it was, so a
        region once selected is never cleared. The button is the only
        caller, and it cannot be pressed while disabled. */
    method SelectArea(drag: Option<Drag>)
      requires Valid() && !closed && selectEnabled
      modifies this
      ensures Valid()
      ensures var sel := if drag.Some? then SelectedRegion(drag.value) else None;
        if sel.Some? then bbox == sel && startEnabled
        else bbox == old(bbox) && startEnabled == old(startEnabled)
      ensures old(bbox).Some? ==> bbox.Some?
      ensures monitoring == old(monitoring) && hasMonitorThread == old(hasMonitorThread) && !closed
      ensures selectEnabled == old(selectEnabled) && stopEnabled == old(stopEnabled)
      ensures frames == old(frames) && rows == old(rows)
    {
      var selection := None;
      if drag.Some? {
        selection := SelectedRegion(drag.value);
      }
      if selection.Some? {
        bbox := selection;
        startEnabled := true;
      }
    }

    /** The Start button: refuse (with an error dialog) when no region is
        selected, leaving the state unchanged; otherwise set the monitoring
        flag, leave only Stop enabled and start the monitor thread. */
    method StartMonitoring()
      requires Valid() && !closed
      modifies this
      ensures Valid()
      ensures old(bbox).None? ==>
        monitoring == old(monitoring) && hasMonitorThread == old(hasMonitorThread) &&
        selectEnabled == old(selectEnabled) && startEnabled == old(startEnabled) && stopEnabled == old(stopEnabled)
      ensures old(bbox).Some? ==>
        monitoring && hasMonitorThread && !selectEnabled && !startEnabled && stopEnabled
      ensures bbox == old(bbox) && !closed
      ensures frames == old(frames) && rows == old(rows)
    {
      if bbox.None? {
        return;
      }
      monitoring := true;
      startEnabled := false;
      selectEnabled := false;
      stopEnabled := true;
      hasMonitorThread := true;
    }

    /** The Stop button, also called by the error handler: clear the
        monitoring flag, enable Start and Select, disable Stop. Both callers
        come after a monitor thread was started. */
    method StopMonitoring()
      requires Valid() && !closed && hasMonitorThread
      modifies this
      ensures Valid()
      ensures !monitoring && selectEnabled && startEnabled && !stopEnabled
      ensures bbox == old(bbox) && hasMonitorThread && !closed
      ensures frames == old(frames) && rows == old(rows)
    {
      monitoring := false;
      startEnabled := true;
      selectEnabled := true;
      stopEnabled := false;
    }

    /** An error reported by the monitor thread: show it, then stop as the
        Stop button does. */
    method HandleMonitoringError(msg: string)
      requires Valid() && !closed && hasMonitorThread
      modifies this
      ensures Valid()
      ensures !monitoring && selectEnabled && startEnabled && !stopEnabled
      ensures bbox == old(bbox) && hasMonitorThread && !closed
      ensures frames == old(frames) && rows == old(rows)
    {
      StopMonitoring();
    }

    /** A capture reported by the monitor thread. If the saved file can be
        opened (`opens`), a frame for it is created in the panel, every frame
        (the new one included, whose grid row still reads as 0) is moved one
        row down, and the new frame is then placed on row 0. A file that
        cannot be opened changes nothing. */
    method AddCaptureToGui(path: string, opens: bool)
      requires Valid()
      modifies this`frames, this`rows
      ensures Valid()
      ensures opens ==> frames == old(frames) + [path] && rows == Inserted(old(rows))
      ensures !opens ==> frames == old(frames) && rows == old(rows)
    {
      if !opens {
        return;
      }
      frames := frames + [path];
      rows := rows + [0];
      ghost var gridded := rows;
      var i := 0;
      while i < |rows|
        invariant 0 <= i <= |rows| == |gridded|
        invariant forall k | 0 <= k < i :: rows[k] == gridded[k] + 1
        invariant forall k | i <= k < |rows| :: rows[k] == gridded[k]
        modifies this`rows
      {
        rows := rows[i := rows[i] + 1];
        i := i + 1;
      }
      rows := rows[|rows| - 1 := 0];
      InsertedKeepsNewestOnTop(old(rows));
    }

    /** The window's event loop running, in order, the callbacks the monitor
        thread scheduled for its events: each capture is added to the panel
        (its freshly saved file opens), and an error stops monitoring. */
    method DeliverEvents<Image>(events: seq<Event<Image>>)
      requires Valid() && !closed && hasMonitorThread
      modifies this
      ensures Valid() && !closed && hasMonitorThread && bbox == old(bbox)
      ensures frames == old(frames) + CapturedPaths(events)
      ensures (exists k | 0 <= k < |events| :: events[k].Failed?) ==>
        !monitoring && selectEnabled && startEnabled && !stopEnabled
      ensures (forall k | 0 <= k < |events| :: events[k].Captured?) ==>
        monitoring == old(monitoring) && stopEnabled == old(stopEnabled)
    {
      var i := 0;
      while i < |events|
        invariant 0 <= i <= |events|
        invariant Valid() && !closed && hasMonitorThread && bbox == old(bbox)
        invariant frames == old(frames) + CapturedPaths(events[..i])
        invariant (exists k | 0 <= k < i :: events[k].Failed?) ==>
          !monitoring && selectEnabled && startEnabled && !stopEnabled
        invariant (forall k | 0 <= k < i :: events[k].Captured?) ==>
          monitoring == old(monitoring) && stopEnabled == old(stopEnabled)
      {
        assert events[..i + 1][..i] == events[..i];
        match events[i] {
          case Captured(path, _) =>
            AddCaptureToGui(path, true);
          case Failed(msg) =>
            HandleMonitoringError(msg);
        }
        i := i + 1;
      }
      assert events[..i] == events;
    }

    /** Closing the window: clear the monitoring flag (the thread is given a
        bounded time to notice) and destroy the window. */
    method OnClosing()
      requires Valid()
      modifies this`monitoring, this`closed
      ensures Valid()
      ensures !monitoring && closed
    {
      monitoring := false;
      closed := true;
    }
  }

  /** Whatever the window is doing, monitoring leaves only Stop enabled, and
      an enabled Start button means a region is selected. */
  lemma ButtonsMatchState(app: ScreenMonitorApp)
    requires app.Valid() && !app.closed
    ensures app.monitoring ==> app.stopEnabled && !app.startEnabled && !app.selectEnabled
    ensures app.startEnabled ==> app.bbox.Some?
  {
  }
}
