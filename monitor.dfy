/** The capture-acceptance loop that the monitor thread runs: one
    unconditional first capture, then repeated grabs of the selected region,
    each compared with the last ACCEPTED image and kept only when it changed
    by strictly more than the threshold read on that iteration.

    The screen grab, the image difference, the percentage metric and the
    file save are library calls outside the model: a grab or a save is an
    `Outcome` handed in, and the two image comparisons are functions held by
    a `Comparator`. The loop runs while the `monitoring` flag is set; here
    the end of the sequence of polls stands for the flag being cleared. */
module Monitor {
  import opened Wrappers

  /** The two comparisons the loop makes between the baseline and a new grab:
      whether any pixel differs (the difference image has a bounding box) and
      the change percentage. */
  datatype Comparator<!Image> = Comparator(differs: (Image, Image) -> bool, pct: (Image, Image) -> real)

  /** One iteration of the loop: what the grab produced, the threshold the
      slider holds when it is read, and what saving the grab would produce
      (the path written, or the exception). */
  datatype Poll<Image> = Poll(grab: Outcome<Image>, threshold: int, save: Outcome<string>)

  /** What the loop reports to the window: a saved capture (its path, and the
      image stored there), or an error message. */
  datatype Event<Image> = Captured(path: string, image: Image) | Failed(msg: string)

  /** `current` changed enough from `baseline`: some pixel differs and the
      percentage is strictly above the threshold. */
  predicate Exceeds<Image>(cmp: Comparator<Image>, baseline: Image, current: Image, threshold: int) {
    cmp.differs(baseline, current) && cmp.pct(baseline, current) > threshold as real
  }

  /** The poll's grab succeeded and is to be accepted against `baseline`. */
  predicate Accepts<Image>(cmp: Comparator<Image>, baseline: Image, poll: Poll<Image>) {
    poll.grab.Ok? && Exceeds(cmp, baseline, poll.grab.value, poll.threshold)
  }

  /** The events the `while` loop reports, starting from `baseline`. A failed
      grab, or a failed save of an accepted grab, reports one error and ends
      the loop. */
  function LoopEvents<Image>(cmp: Comparator<Image>, baseline: Image, polls: seq<Poll<Image>>): seq<Event<Image>>
    decreases |polls|
  {
    if polls == [] then []
    else
      match polls[0].grab
      case Raised(m) => [Failed(m)]
      case Ok(current) =>
        if Accepts(cmp, baseline, polls[0]) then
          match polls[0].save
          case Raised(m) => [Failed(m)]
          case Ok(path) => [Captured(path, current)] + LoopEvents(cmp, current, polls[1..])
        else
          LoopEvents(cmp, baseline, polls[1..])
  }

  /** Everything the monitor thread reports in one run. If the capture
      directory cannot be created the exception escapes the thread and
      nothing is reported; a failed first grab or first save reports one
      error and skips the loop; otherwise the first grab is always reported
      and becomes the baseline. */
  function Run<Image>(cmp: Comparator<Image>, dirReady: bool, first: Outcome<Image>, firstSave: Outcome<string>,
                      polls: seq<Poll<Image>>): seq<Event<Image>>
  {
    if !dirReady then []
    else
      match first
      case Raised(m) => [Failed(m)]
      case Ok(image) =>
        match firstSave
        case Raised(m) => [Failed(m)]
        case Ok(path) => [Captured(path, image)] + LoopEvents(cmp, image, polls)
  }

  /** The monitor thread's body. It returns the events it reported, in order,
      and the final value of its baseline `last_capture`. */
  method MonitorLoop<Image>(cmp: Comparator<Image>, dirReady: bool, first: Outcome<Image>, firstSave: Outcome<string>,
                            polls: seq<Poll<Image>>)
    returns (events: seq<Event<Image>>, baseline: Option<Image>)
    ensures events == Run(cmp, dirReady, first, firstSave, polls)
    ensures events != [] && events[|events| - 1].Captured? ==> baseline == Some(events[|events| - 1].image)
  {
    events, baseline := [], None;
    if !dirReady {
      return;
    }
    if first.Raised? {
      events := [Failed(first.msg)];
      return;
    }
    var last := first.value;
    baseline := Some(last);
    if firstSave.Raised? {
      events := [Failed(firstSave.msg)];
      return;
    }
    events := [Captured(firstSave.value, last)];
    var i := 0;
    while i < |polls|
      invariant 0 <= i <= |polls|
      invariant baseline == Some(last)
      invariant events != [] && events[|events| - 1] .Captured? && events[|events| - 1].image == last
      invariant events + LoopEvents(cmp, last, polls[i..]) == Run(cmp, dirReady, first, firstSave, polls)
    {
      var poll := polls[i];
      if poll.grab.Raised? {
        events := events + [Failed(poll.grab.msg)];
        return;
      }
      var current := poll.grab.value;
      if cmp.differs(last, current) {
        var threshold := poll.threshold;
        var change := cmp.pct(last, current);
        if change > threshold as real {
          last := current;
          baseline := Some(last);
          if poll.save.Raised? {
            events := events + [Failed(poll.save.msg)];
            return;
          }
          events := events + [Captured(poll.save.value, last)];
        }
      }
      assert polls[i..][1..] == polls[i + 1..];
      i := i + 1;
    }
  }

  /** An error, if any, is the last event: at most one error is reported and
      nothing is reported after it. */
  predicate FailureIsLast<Image>(e: seq<Event<Image>>) {
    forall k | 0 <= k < |e| && e[k].Failed? :: k == |e| - 1
  }

  /** A run reports its first grab unless the directory, the first grab or
      the first save fails; a failed first grab or save is reported once and
      nothing follows it; and in every run an error is the last event. */
  lemma RunReports<Image>(cmp: Comparator<Image>, dirReady: bool, first: Outcome<Image>, firstSave: Outcome<string>,
                          polls: seq<Poll<Image>>)
    ensures dirReady && first.Ok? && firstSave.Ok? ==>
      Run(cmp, dirReady, first, firstSave, polls) != [] &&
      Run(cmp, dirReady, first, firstSave, polls)[0] == Captured(firstSave.value, first.value)
    ensures dirReady && first.Raised? ==> Run(cmp, dirReady, first, firstSave, polls) == [Failed(first.msg)]
    ensures dirReady && first.Ok? && firstSave.Raised? ==>
      Run(cmp, dirReady, first, firstSave, polls) == [Failed(firstSave.msg)]
    ensures FailureIsLast(Run(cmp, dirReady, first, firstSave, polls))
  {
    if dirReady && first.Ok? && firstSave.Ok? {
      var loop := LoopEvents(cmp, first.value, polls);
      FailureEndsLoop(cmp, first.value, polls);
      var e := [Captured(firstSave.value, first.value)] + loop;
      assert Run(cmp, dirReady, first, firstSave, polls) == e;
      assert forall k | 1 <= k < |e| :: e[k] == loop[k - 1];
    }
  }

  /** Inside the loop, too, an error is always the last event. */
  lemma {:induction false} FailureEndsLoop<Image>(cmp: Comparator<Image>, baseline: Image, polls: seq<Poll<Image>>)
    ensures FailureIsLast(LoopEvents(cmp, baseline, polls))
    decreases |polls|
  {
    if polls != [] && polls[0].grab.Ok? {
      if !Accepts(cmp, baseline, polls[0]) {
        FailureEndsLoop(cmp, baseline, polls[1..]);
      } else if polls[0].save.Ok? {
        var later := LoopEvents(cmp, polls[0].grab.value, polls[1..]);
        FailureEndsLoop(cmp, polls[0].grab.value, polls[1..]);
        var e := [Captured(polls[0].save.value, polls[0].grab.value)] + later;
        assert forall k | 1 <= k < |e| :: e[k] == later[k - 1];
      }
    }
  }

  /** The loop reports at most one event per poll. */
  lemma {:induction false} AtMostOneEventPerPoll<Image>(cmp: Comparator<Image>, baseline: Image, polls: seq<Poll<Image>>)
    ensures |LoopEvents(cmp, baseline, polls)| <= |polls|
    decreases |polls|
  {
    if polls != [] && polls[0].grab.Ok? {
      if !Accepts(cmp, baseline, polls[0]) {
        AtMostOneEventPerPoll(cmp, baseline, polls[1..]);
      } else if polls[0].save.Ok? {
        AtMostOneEventPerPoll(cmp, polls[0].grab.value, polls[1..]);
      }
    }
  }

  /** The baseline that follows `baseline` once `poll` has been examined:
      the grab if it is accepted, otherwise the same image. */
  function NextBaseline<Image>(cmp: Comparator<Image>, baseline: Image, poll: Poll<Image>): Image {
    if Accepts(cmp, baseline, poll) then poll.grab.value else baseline
  }

  /** The loop gets through `polls` without failing: every grab succeeds,
      and so does every save that runs, that is, the save of each accepted
      grab. The saves of rejected grabs never run and do not matter. */
  predicate RunsClean<Image>(cmp: Comparator<Image>, baseline: Image, polls: seq<Poll<Image>>)
    decreases |polls|
  {
    polls == [] ||
    (&& polls[0].grab.Ok?
     && (Accepts(cmp, baseline, polls[0]) ==> polls[0].save.Ok?)
     && RunsClean(cmp, NextBaseline(cmp, baseline, polls[0]), polls[1..]))
  }

  /** The baseline once the loop has examined `polls`: replaced by each
      accepted grab and by nothing else. */
  function BaselineAfter<Image>(cmp: Comparator<Image>, baseline: Image, polls: seq<Poll<Image>>): Image
    decreases |polls|
  {
    if polls == [] then baseline
    else BaselineAfter(cmp, NextBaseline(cmp, baseline, polls[0]), polls[1..])
  }

  /** The image of the last capture in `events`, or `baseline` when there is
      none. */
  function LastCapture<Image>(baseline: Image, events: seq<Event<Image>>): Image
    decreases |events|
  {
    if events == [] then baseline
    else LastCapture(if events[0].Captured? then events[0].image else baseline, events[1..])
  }

  /** Running the loop over `prefix` and then over `rest` is running it over
      both, the second part starting from the baseline the first left,
      provided the loop gets through `prefix` without failing. */
  lemma {:induction false} LoopSplit<Image>(cmp: Comparator<Image>, baseline: Image,
                                            prefix: seq<Poll<Image>>, rest: seq<Poll<Image>>)
    requires RunsClean(cmp, baseline, prefix)
    ensures LoopEvents(cmp, baseline, prefix + rest)
         == LoopEvents(cmp, baseline, prefix) + LoopEvents(cmp, BaselineAfter(cmp, baseline, prefix), rest)
    decreases |prefix|
  {
    if prefix == [] {
      assert prefix + rest == rest;
    } else {
      assert (prefix + rest)[0] == prefix[0];
      assert (prefix + rest)[1..] == prefix[1..] + rest;
      LoopSplit(cmp, NextBaseline(cmp, baseline, prefix[0]), prefix[1..], rest);
    }
  }

  /** The baseline is always the most recently accepted image: after polls
      the loop gets through without failing, it is the image of the last
      capture reported, or the starting baseline if nothing was captured. */
  lemma {:induction false} BaselineIsLastCapture<Image>(cmp: Comparator<Image>, baseline: Image, polls: seq<Poll<Image>>)
    requires RunsClean(cmp, baseline, polls)
    ensures BaselineAfter(cmp, baseline, polls) == LastCapture(baseline, LoopEvents(cmp, baseline, polls))
    decreases |polls|
  {
    if polls != [] {
      if Accepts(cmp, baseline, polls[0]) {
        var current := polls[0].grab.value;
        BaselineIsLastCapture(cmp, current, polls[1..]);
        var later := LoopEvents(cmp, current, polls[1..]);
        assert ([Captured(polls[0].save.value, current)] + later)[1..] == later;
      } else {
        BaselineIsLastCapture(cmp, baseline, polls[1..]);
      }
    }
  }

  /** The acceptance rule at poll `i`, once the loop got through the polls
      before it: its grab is accepted if and only if it differs from the
      last image captured before it and the change is strictly above the
      threshold read in that iteration. An accepted grab is saved and
      reported (or its failed save reported as the last event) and becomes
      the baseline of what follows; a rejected grab leaves no trace and the
      baseline stays. */
  lemma DecisionAt<Image>(cmp: Comparator<Image>, baseline: Image, polls: seq<Poll<Image>>, i: nat)
    requires i < |polls| && RunsClean(cmp, baseline, polls[..i])
    requires polls[i].grab.Ok?
    ensures var before := LoopEvents(cmp, baseline, polls[..i]);
      var last := LastCapture(baseline, before);
      var current := polls[i].grab.value;
      LoopEvents(cmp, baseline, polls)
      == before + if !Exceeds(cmp, last, current, polls[i].threshold) then LoopEvents(cmp, last, polls[i + 1..])
                  else if polls[i].save.Raised? then [Failed(polls[i].save.msg)]
                  else [Captured(polls[i].save.value, current)] + LoopEvents(cmp, current, polls[i + 1..])
  {
    assert polls == polls[..i] + polls[i..];
    LoopSplit(cmp, baseline, polls[..i], polls[i..]);
    BaselineIsLastCapture(cmp, baseline, polls[..i]);
    assert polls[i..][0] == polls[i];
    assert polls[i..][1..] == polls[i + 1..];
  }

  /** A failed grab at poll `i`, once the loop got through the polls before
      it, is reported once, as the last event of the loop. */
  lemma FailureAt<Image>(cmp: Comparator<Image>, baseline: Image, polls: seq<Poll<Image>>, i: nat)
    requires i < |polls| && RunsClean(cmp, baseline, polls[..i])
    requires polls[i].grab.Raised?
    ensures LoopEvents(cmp, baseline, polls) == LoopEvents(cmp, baseline, polls[..i]) + [Failed(polls[i].grab.msg)]
  {
    assert polls == polls[..i] + polls[i..];
    LoopSplit(cmp, baseline, polls[..i], polls[i..]);
    assert polls[i..][0] == polls[i];
  }

  /** What the image library guarantees of the difference test: an image
      never differs from itself (the difference of an image with itself is
      all zero, so it has no bounding box). */
  ghost predicate NoSelfDifference<Image(!new)>(cmp: Comparator<Image>) {
    forall a: Image :: !cmp.differs(a, a)
  }

  /** A grab identical to the last image captured before it is never
      captured, whatever the threshold and the percentage say: it leaves no
      trace, and the loop goes on from the same baseline. */
  lemma IdenticalGrabNeverCaptured<Image(!new)>(cmp: Comparator<Image>, baseline: Image, polls: seq<Poll<Image>>, i: nat)
    requires NoSelfDifference(cmp)
    requires i < |polls| && RunsClean(cmp, baseline, polls[..i])
    requires polls[i].grab == Ok(LastCapture(baseline, LoopEvents(cmp, baseline, polls[..i])))
    ensures LoopEvents(cmp, baseline, polls)
         == LoopEvents(cmp, baseline, polls[..i])
            + LoopEvents(cmp, LastCapture(baseline, LoopEvents(cmp, baseline, polls[..i])), polls[i + 1..])
  {
    DecisionAt(cmp, baseline, polls, i);
  }

  /** Each capture in `e` differs from the capture just before it by strictly
      more than `t` percent, the first one from `baseline`; and a capture is
      only ever preceded by a capture. */
  predicate EachCaptureExceeds<Image>(cmp: Comparator<Image>, baseline: Image, e: seq<Event<Image>>, t: int) {
    && (e != [] && e[0].Captured? ==> Exceeds(cmp, baseline, e[0].image, t))
    && (forall k | 0 < k < |e| && e[k].Captured? :: e[k - 1].Captured? && Exceeds(cmp, e[k - 1].image, e[k].image, t))
  }

  /** With every threshold at least `t`, each capture the loop reports
      changed by more than `t` percent from the previous accepted image. */
  lemma {:induction false} CapturesExceedPredecessor<Image>(cmp: Comparator<Image>, baseline: Image,
                                                            polls: seq<Poll<Image>>, t: int)
    requires forall j | 0 <= j < |polls| :: polls[j].threshold >= t
    ensures EachCaptureExceeds(cmp, baseline, LoopEvents(cmp, baseline, polls), t)
    decreases |polls|
  {
    if polls != [] && polls[0].grab.Ok? {
      assert forall j | 0 <= j < |polls[1..]| :: polls[1..][j].threshold >= t by {
        forall j | 0 <= j < |polls[1..]| ensures polls[1..][j] == polls[j + 1] { }
      }
      if !Accepts(cmp, baseline, polls[0]) {
        CapturesExceedPredecessor(cmp, baseline, polls[1..], t);
      } else if polls[0].save.Ok? {
        var current := polls[0].grab.value;
        var later := LoopEvents(cmp, current, polls[1..]);
        CapturesExceedPredecessor(cmp, current, polls[1..], t);
        var e := [Captured(polls[0].save.value, current)] + later;
        assert forall k | 1 <= k < |e| :: e[k] == later[k - 1];
      }
    }
  }

  /** The same for a whole run: after the first capture, each capture
      differs from the one reported just before it by more than `t`. */
  lemma RunCapturesExceedPredecessor<Image>(cmp: Comparator<Image>, dirReady: bool, first: Outcome<Image>,
                                            firstSave: Outcome<string>, polls: seq<Poll<Image>>, t: int)
    requires dirReady && first.Ok?
    requires forall j | 0 <= j < |polls| :: polls[j].threshold >= t
    ensures EachCaptureExceeds(cmp, first.value, Run(cmp, dirReady, first, firstSave, polls)[1..], t)
  {
    if firstSave.Ok? {
      CapturesExceedPredecessor(cmp, first.value, polls, t);
      var loop := LoopEvents(cmp, first.value, polls);
      assert ([Captured(firstSave.value, first.value)] + loop)[1..] == loop;
    }
  }

  /** Grabs that never change enough from the baseline (identical images, or
      a change at or below the threshold) are never captured. */
  lemma {:induction false} NoChangeNoCapture<Image>(cmp: Comparator<Image>, baseline: Image, polls: seq<Poll<Image>>)
    requires forall j | 0 <= j < |polls| ::
      polls[j].grab.Ok? && !Exceeds(cmp, baseline, polls[j].grab.value, polls[j].threshold)
    ensures LoopEvents(cmp, baseline, polls) == []
    decreases |polls|
  {
    if polls != [] {
      assert forall j | 0 <= j < |polls[1..]| :: polls[1..][j] == polls[j + 1];
      NoChangeNoCapture(cmp, baseline, polls[1..]);
    }
  }

  /** A screen that never changes is captured once: when every grab
      succeeds and is identical to the first, the run reports the first grab
      and nothing else. */
  lemma UnchangedScreenCapturedOnce<Image(!new)>(cmp: Comparator<Image>, image: Image, path: string,
                                                 polls: seq<Poll<Image>>)
    requires NoSelfDifference(cmp)
    requires forall j | 0 <= j < |polls| :: polls[j].grab == Ok(image)
    ensures Run(cmp, true, Ok(image), Ok(path), polls) == [Captured(path, image)]
  {
    NoChangeNoCapture(cmp, image, polls);
  }

  /** Four grabs A, A, B, C with threshold 10, where B differs from A by
      exactly 10 percent, C from A by 15 and C from B by only 10: only A
      (the first grab) and C are captured. B is rejected because the
      comparison is strict, and C is captured only because it is compared
      with A, the last accepted image; against the previous grab B it would
      not have been enough. */
  lemma ThresholdScenario()
    ensures var cmp := Comparator((a: int, b: int) => a != b,
                                  (a: int, b: int) => if a == b then 0.0 else if a == 2 || b == 2 then 10.0 else 15.0);
      && Run(cmp, true, Ok(1), Ok("a1"), [Poll(Ok(1), 10, Ok("a2")), Poll(Ok(2), 10, Ok("b")), Poll(Ok(3), 10, Ok("c"))])
         == [Captured("a1", 1), Captured("c", 3)]
      && !Exceeds(cmp, 2, 3, 10)
  {
  }
}
