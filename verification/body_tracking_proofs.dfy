/** Properties of the slot diff in `BodyTracking`: what one pass does to
    each slot, the order and tally of its events, idempotence, the wrapper
    invariant kept over a session, and how the body counter drifts away from
    the number of occupied slots when an id is swapped without an exit. */
module BodyTrackingProofs {
  import opened Wrappers
  import opened Int32
  import opened BodyTracking

  // Event-log algebra

  lemma {:induction false} EventsAtConcat(a: seq<Event>, b: seq<Event>, j: nat)
    ensures EventsAt(a + b, j) == EventsAt(a, j) + EventsAt(b, j)
    decreases |b|
  {
    if |b| == 0 {
      assert a + b == a;
    } else {
      var n := |b| - 1;
      assert (a + b)[..|a + b| - 1] == a + b[..n];
      EventsAtConcat(a, b[..n], j);
    }
  }

  lemma {:induction false} CountsConcat(a: seq<Event>, b: seq<Event>)
    ensures CountEnters(a + b) == CountEnters(a) + CountEnters(b)
    ensures CountExits(a + b) == CountExits(a) + CountExits(b)
    decreases |b|
  {
    if |b| == 0 {
      assert a + b == a;
    } else {
      var n := |b| - 1;
      assert (a + b)[..|a + b| - 1] == a + b[..n];
      CountsConcat(a, b[..n]);
    }
  }

  /** Replaying two stretches of a log one after the other is replaying
      the whole log. */
  lemma {:induction false} ApplyEventsConcat(c: int32, a: seq<Event>, b: seq<Event>)
    ensures ApplyEvents(c, a + b) == ApplyEvents(ApplyEvents(c, a), b)
    decreases |b|
  {
    if |b| == 0 {
      assert a + b == a;
    } else {
      var n := |b| - 1;
      assert (a + b)[..|a + b| - 1] == a + b[..n];
      ApplyEventsConcat(c, a, b[..n]);
    }
  }

  /** Replaying a log on the counter stores the 32-bit value of the counter
      plus #Enter - #Exit. */
  lemma {:induction false} ApplyEventsWraps(c: int32, events: seq<Event>)
    ensures ApplyEvents(c, events) == Wrap(c + CountEnters(events) - CountExits(events))
    decreases |events|
  {
    if |events| > 0 {
      var n := |events| - 1;
      ApplyEventsWraps(c, events[..n]);
      var y := c + CountEnters(events[..n]) - CountExits(events[..n]);
      if events[n].Enter? {
        IncrementWraps(y);
      } else {
        DecrementWraps(y);
      }
    }
  }

  /** Every event of a log appears among the events of its own slot. */
  lemma {:induction false} EventInEventsAt(events: seq<Event>, e: Event)
    requires e in events
    ensures e in EventsAt(events, e.slot)
    decreases |events|
  {
    var n := |events| - 1;
    if events[n] != e {
      assert e in events[..n] by {
        var a :| 0 <= a < |events| && events[a] == e;
        assert a < n && events[..n][a] == e;
      }
      EventInEventsAt(events[..n], e);
    }
  }

  // The loop after k iterations

  /** One iteration touches only slot `i`: it stores the current id there and
      sets the wrapper entry and the event its case prescribes. */
  lemma SlotStepEffect(t: Tracker, frame: seq<nat>, i: nat, step: PassResult, j: nat)
    requires FitsFrame(t, frame) && i < |frame| && j < |frame|
    requires step == SlotStep(t, frame, i)
    ensures j != i ==>
      && step.tracker.bodyUUIDs[j] == t.bodyUUIDs[j]
      && step.tracker.kinectBodies[j] == t.kinectBodies[j]
      && EventsAt(step.events, j) == []
    ensures j == i ==> step.tracker.bodyUUIDs[j] == frame[j]
    ensures j == i && frame[j] == t.bodyUUIDs[j] ==>
      && step.tracker.kinectBodies[j] == t.kinectBodies[j]
      && EventsAt(step.events, j) == []
    ensures j == i && frame[j] != t.bodyUUIDs[j] && frame[j] == 0 ==>
      && step.tracker.kinectBodies[j] == None
      && EventsAt(step.events, j) == [Exit(j, t.kinectBodies[j])]
    ensures j == i && frame[j] != t.bodyUUIDs[j] && frame[j] != 0 ==>
      && step.tracker.kinectBodies[j] == Some(KinectBody(frame[j]))
      && EventsAt(step.events, j) == [Enter(j, KinectBody(frame[j]))]
  {
  }

  /** Slots at or above `k` are untouched by the first `k` iterations. */
  lemma {:induction false} PassUpToUntouched(t: Tracker, frame: seq<nat>, k: nat, j: nat)
    requires FitsFrame(t, frame) && k <= j < |frame|
    ensures var r := PassUpTo(t, frame, k);
      && r.tracker.bodyUUIDs[j] == t.bodyUUIDs[j]
      && r.tracker.kinectBodies[j] == t.kinectBodies[j]
      && EventsAt(r.events, j) == []
    decreases k
  {
    if k > 0 {
      var prev := PassUpTo(t, frame, k - 1);
      var step := SlotStep(prev.tracker, frame, k - 1);
      PassUpToUntouched(t, frame, k - 1, j);
      SlotStepEffect(prev.tracker, frame, k - 1, step, j);
      EventsAtConcat(prev.events, step.events, j);
    }
  }

  /** A slot below `k` holds the current id after the first `k` iterations,
      with the wrapper entry and events its case prescribes. */
  lemma {:induction false} PassUpToSlot(t: Tracker, frame: seq<nat>, k: nat, j: nat)
    requires FitsFrame(t, frame) && j < k <= |frame|
    ensures var r := PassUpTo(t, frame, k);
      && r.tracker.bodyUUIDs[j] == frame[j]
      && (frame[j] == t.bodyUUIDs[j] ==>
            && r.tracker.kinectBodies[j] == t.kinectBodies[j]
            && EventsAt(r.events, j) == [])
      && (frame[j] != t.bodyUUIDs[j] && frame[j] == 0 ==>
            && r.tracker.kinectBodies[j] == None
            && EventsAt(r.events, j) == [Exit(j, t.kinectBodies[j])])
      && (frame[j] != t.bodyUUIDs[j] && frame[j] != 0 ==>
            && r.tracker.kinectBodies[j] == Some(KinectBody(frame[j]))
            && EventsAt(r.events, j) == [Enter(j, KinectBody(frame[j]))])
    decreases k
  {
    var prev := PassUpTo(t, frame, k - 1);
    var step := SlotStep(prev.tracker, frame, k - 1);
    SlotStepEffect(prev.tracker, frame, k - 1, step, j);
    EventsAtConcat(prev.events, step.events, j);
    if j == k - 1 {
      PassUpToUntouched(t, frame, k - 1, j);
    } else {
      PassUpToSlot(t, frame, k - 1, j);
    }
  }

  /** The first `k` iterations fire events only for slots below `k`, in
      strictly ascending slot order. */
  lemma {:induction false} PassUpToOrdered(t: Tracker, frame: seq<nat>, k: nat)
    requires FitsFrame(t, frame) && k <= |frame|
    ensures var ev := PassUpTo(t, frame, k).events;
      && (forall a :: 0 <= a < |ev| ==> ev[a].slot < k)
      && Ascending(ev)
    decreases k
  {
    if k > 0 {
      PassUpToOrdered(t, frame, k - 1);
    }
  }

  /** One iteration applies its own event, if any, to the counter. */
  lemma SlotStepCount(t: Tracker, frame: seq<nat>, i: nat, step: PassResult)
    requires FitsFrame(t, frame) && i < |frame|
    requires step == SlotStep(t, frame, i)
    ensures step.tracker.currentBodyCount == ApplyEvents(t.currentBodyCount, step.events)
  {
  }

  /** After the first `k` iterations the counter has taken one wrapping
      `++` per `Enter` event and one wrapping `--` per `Exit` event. */
  lemma {:induction false} PassUpToCount(t: Tracker, frame: seq<nat>, k: nat)
    requires FitsFrame(t, frame) && k <= |frame|
    ensures var r := PassUpTo(t, frame, k);
      r.tracker.currentBodyCount == ApplyEvents(t.currentBodyCount, r.events)
    decreases k
  {
    if k > 0 {
      var prev := PassUpTo(t, frame, k - 1);
      var step := SlotStep(prev.tracker, frame, k - 1);
      PassUpToCount(t, frame, k - 1);
      SlotStepCount(prev.tracker, frame, k - 1, step);
      ApplyEventsConcat(t.currentBodyCount, prev.events, step.events);
    }
  }

  lemma OccupiedPrefix(ids: seq<nat>, k: nat)
    requires 0 < k <= |ids|
    ensures Occupied(ids[..k]) == Occupied(ids[..k - 1]) + (if ids[k - 1] != 0 then 1 else 0)
  {
    assert ids[..k][..k - 1] == ids[..k - 1];
  }

  lemma SwapsPrefix(prev: seq<nat>, cur: seq<nat>, k: nat)
    requires |prev| == |cur| && 0 < k <= |cur|
    ensures Swaps(prev[..k], cur[..k])
      == Swaps(prev[..k - 1], cur[..k - 1])
         + (if prev[k - 1] != 0 && cur[k - 1] != 0 && prev[k - 1] != cur[k - 1] then 1 else 0)
  {
    assert prev[..k][..k - 1] == prev[..k - 1];
    assert cur[..k][..k - 1] == cur[..k - 1];
  }

  /** The net #Enter - #Exit of one iteration, by the slot's old and new id. */
  lemma SlotStepTally(t: Tracker, frame: seq<nat>, i: nat, step: PassResult)
    requires FitsFrame(t, frame) && i < |frame|
    requires step == SlotStep(t, frame, i)
    ensures CountEnters(step.events) - CountExits(step.events)
      == (if frame[i] != 0 then 1 else 0) - (if t.bodyUUIDs[i] != 0 then 1 else 0)
         + (if t.bodyUUIDs[i] != 0 && frame[i] != 0 && t.bodyUUIDs[i] != frame[i] then 1 else 0)
  {
  }

  /** Over the first `k` slots, #Enter - #Exit is the change in the number of
      occupied slots plus the number of direct id swaps. */
  lemma {:induction false} PassUpToDrift(t: Tracker, frame: seq<nat>, k: nat)
    requires FitsFrame(t, frame) && k <= |frame|
    ensures var ev := PassUpTo(t, frame, k).events;
      CountEnters(ev) - CountExits(ev)
        == Occupied(frame[..k]) - Occupied(t.bodyUUIDs[..k]) + Swaps(t.bodyUUIDs[..k], frame[..k])
    decreases k
  {
    if k == 0 {
      assert frame[..0] == [] && t.bodyUUIDs[..0] == [];
    } else {
      var prev := PassUpTo(t, frame, k - 1);
      var step := SlotStep(prev.tracker, frame, k - 1);
      PassUpToDrift(t, frame, k - 1);
      PassUpToUntouched(t, frame, k - 1, k - 1);
      SlotStepTally(prev.tracker, frame, k - 1, step);
      CountsConcat(prev.events, step.events);
      OccupiedPrefix(frame, k);
      OccupiedPrefix(t.bodyUUIDs, k);
      SwapsPrefix(t.bodyUUIDs, frame, k);
    }
  }

  /** On a frame equal to the stored ids, no iteration changes anything. */
  lemma {:induction false} PassUpToOnStoredIds(t: Tracker, k: nat)
    requires Shaped(t) && k <= |t.bodyUUIDs|
    ensures PassUpTo(t, t.bodyUUIDs, k) == PassResult(t, [])
    decreases k
  {
    if k > 0 {
      PassUpToOnStoredIds(t, k - 1);
      assert t.bodyUUIDs[k - 1 := t.bodyUUIDs[k - 1]] == t.bodyUUIDs;
    }
  }

  // One pass

  /** After a pass the stored id of every slot is that slot's current id. */
  lemma PassStoresCurrentIds(t: Tracker, frame: seq<nat>)
    requires FitsFrame(t, frame)
    ensures Pass(t, frame).tracker.bodyUUIDs == frame
  {
    var r := Pass(t, frame);
    forall j | 0 <= j < |frame|
      ensures r.tracker.bodyUUIDs[j] == frame[j]
    {
      PassUpToSlot(t, frame, |frame|, j);
    }
  }

  /** A slot whose current id equals its stored id fires no event and keeps
      its wrapper entry. */
  lemma PassKeepsUnchangedSlot(t: Tracker, frame: seq<nat>, j: nat)
    requires FitsFrame(t, frame) && j < |frame|
    requires frame[j] == t.bodyUUIDs[j]
    ensures var r := Pass(t, frame);
      && r.tracker.kinectBodies[j] == t.kinectBodies[j]
      && EventsAt(r.events, j) == []
  {
    PassUpToSlot(t, frame, |frame|, j);
  }

  /** A slot whose id changed to 0 fires exactly one event, an `Exit` with the
      slot's previous wrapper entry, and its entry becomes null. */
  lemma PassExitsEmptiedSlot(t: Tracker, frame: seq<nat>, j: nat)
    requires FitsFrame(t, frame) && j < |frame|
    requires frame[j] != t.bodyUUIDs[j] && frame[j] == 0
    ensures var r := Pass(t, frame);
      && r.tracker.kinectBodies[j] == None
      && EventsAt(r.events, j) == [Exit(j, t.kinectBodies[j])]
  {
    PassUpToSlot(t, frame, |frame|, j);
  }

  /** A slot whose id changed to a non-zero id fires exactly one event, an
      `Enter` with a new wrapper for that id, which is stored. No `Exit` is
      fired for the slot, even when its previous id was a different non-zero
      id. */
  lemma PassEntersChangedSlot(t: Tracker, frame: seq<nat>, j: nat)
    requires FitsFrame(t, frame) && j < |frame|
    requires frame[j] != t.bodyUUIDs[j] && frame[j] != 0
    ensures var r := Pass(t, frame);
      && r.tracker.kinectBodies[j] == Some(KinectBody(frame[j]))
      && EventsAt(r.events, j) == [Enter(j, KinectBody(frame[j]))]
  {
    PassUpToSlot(t, frame, |frame|, j);
  }

  /** A pass fires its events in strictly ascending slot order, each for an
      existing slot, and the counter takes one wrapping `++` per `Enter` and
      one wrapping `--` per `Exit` it fired. */
  lemma PassOrdersAndCountsEvents(t: Tracker, frame: seq<nat>)
    requires FitsFrame(t, frame)
    ensures var r := Pass(t, frame);
      && Ascending(r.events)
      && (forall a :: 0 <= a < |r.events| ==> r.events[a].slot < |frame|)
      && r.tracker.currentBodyCount == ApplyEvents(t.currentBodyCount, r.events)
  {
    PassUpToOrdered(t, frame, |frame|);
    PassUpToCount(t, frame, |frame|);
  }

  /** A second pass over the same frame fires nothing and changes nothing. */
  lemma PassIdempotent(t: Tracker, frame: seq<nat>)
    requires FitsFrame(t, frame)
    ensures var once := Pass(t, frame).tracker;
      Pass(once, frame) == PassResult(once, [])
  {
    var once := Pass(t, frame).tracker;
    PassStoresCurrentIds(t, frame);
    PassUpToOnStoredIds(once, |frame|);
  }

  /** A pass keeps every wrapper entry in agreement with its slot's id. */
  lemma PassPreservesWellFormed(t: Tracker, frame: seq<nat>)
    requires FitsFrame(t, frame) && WellFormed(t)
    ensures WellFormed(Pass(t, frame).tracker)
  {
    var r := Pass(t, frame);
    forall j | 0 <= j < |frame|
      ensures r.tracker.kinectBodies[j] == Holding(r.tracker.bodyUUIDs[j])
    {
      PassUpToSlot(t, frame, |frame|, j);
    }
  }

  /** From a well-formed state an `Exit` never carries a null wrapper: it
      carries the wrapper of the id the slot held before the pass. */
  lemma PassExitCarriesPreviousBody(t: Tracker, frame: seq<nat>)
    requires FitsFrame(t, frame) && WellFormed(t)
    ensures var r := Pass(t, frame);
      forall e :: e in r.events && e.Exit? ==>
        && e.slot < |frame|
        && t.bodyUUIDs[e.slot] != 0
        && e.exited == Some(KinectBody(t.bodyUUIDs[e.slot]))
  {
    var r := Pass(t, frame);
    PassUpToOrdered(t, frame, |frame|);
    forall e | e in r.events && e.Exit?
      ensures e.slot < |frame| && t.bodyUUIDs[e.slot] != 0
      ensures e.exited == Some(KinectBody(t.bodyUUIDs[e.slot]))
    {
      var j := e.slot;
      assert j < |frame|;
      EventInEventsAt(r.events, e);
      PassUpToSlot(t, frame, |frame|, j);
    }
  }

  /** Over one pass, #Enter - #Exit equals the change in the number of
      occupied slots plus the number of direct id swaps, so each swap pushes
      the counter one above the number of occupied slots. */
  lemma PassCounterDrift(t: Tracker, frame: seq<nat>)
    requires FitsFrame(t, frame)
    ensures var r := Pass(t, frame);
      CountEnters(r.events) - CountExits(r.events)
        == Occupied(r.tracker.bodyUUIDs) - Occupied(t.bodyUUIDs) + Swaps(t.bodyUUIDs, frame)
  {
    PassUpToDrift(t, frame, |frame|);
    PassStoresCurrentIds(t, frame);
    assert frame[..|frame|] == frame;
    assert t.bodyUUIDs[..|frame|] == t.bodyUUIDs;
  }

  // A session of passes

  /** Over any sequence of frames every wrapper entry stays in agreement with
      its slot's id. */
  lemma {:induction false} RunPreservesWellFormed(t: Tracker, frames: seq<seq<nat>>)
    requires FramesFit(t, frames) && WellFormed(t)
    ensures WellFormed(Run(t, frames).tracker)
    decreases |frames|
  {
    if |frames| > 0 {
      PassPreservesWellFormed(t, frames[0]);
      RunPreservesWellFormed(Pass(t, frames[0]).tracker, frames[1..]);
    }
  }

  /** Starting from freshly allocated arrays, after any number of passes a
      slot has a non-null wrapper entry exactly when its stored id is not 0,
      and that wrapper is the one created for the stored id. */
  lemma RunFromResetTracksOccupancy(t: Tracker, maxBodyCount: nat, frames: seq<seq<nat>>)
    requires forall f :: f in frames ==> |f| == maxBodyCount
    ensures var s := Run(Reset(t, maxBodyCount), frames).tracker;
      forall i :: 0 <= i < maxBodyCount ==>
        && (s.kinectBodies[i].Some? <==> s.bodyUUIDs[i] != 0)
        && (s.kinectBodies[i].Some? ==> s.kinectBodies[i].value.uuid == s.bodyUUIDs[i])
  {
    RunPreservesWellFormed(Reset(t, maxBodyCount), frames);
  }

  /** Over a session the counter takes one wrapping `++` per `Enter` and one
      wrapping `--` per `Exit`, in firing order. */
  lemma {:induction false} RunAppliesEvents(t: Tracker, frames: seq<seq<nat>>)
    requires FramesFit(t, frames)
    ensures var r := Run(t, frames);
      r.tracker.currentBodyCount == ApplyEvents(t.currentBodyCount, r.events)
    decreases |frames|
  {
    if |frames| > 0 {
      var first := Pass(t, frames[0]);
      var rest := Run(first.tracker, frames[1..]);
      PassUpToCount(t, frames[0], |frames[0]|);
      RunAppliesEvents(first.tracker, frames[1..]);
      ApplyEventsConcat(t.currentBodyCount, first.events, rest.events);
    }
  }

  /** Over a session #Enter - #Exit is the change in occupied slots plus
      every direct id swap seen, so the counter agrees with the number of
      occupied slots only while no swap has happened. */
  lemma {:induction false} RunCounterDrift(t: Tracker, frames: seq<seq<nat>>)
    requires FramesFit(t, frames)
    ensures var r := Run(t, frames);
      CountEnters(r.events) - CountExits(r.events)
        == Occupied(r.tracker.bodyUUIDs) - Occupied(t.bodyUUIDs) + RunSwaps(t.bodyUUIDs, frames)
    decreases |frames|
  {
    if |frames| > 0 {
      var first := Pass(t, frames[0]);
      var rest := Run(first.tracker, frames[1..]);
      PassCounterDrift(t, frames[0]);
      PassStoresCurrentIds(t, frames[0]);
      RunCounterDrift(first.tracker, frames[1..]);
      CountsConcat(first.events, rest.events);
    }
  }

  lemma {:induction false} OccupiedNone(ids: seq<nat>)
    requires forall i :: 0 <= i < |ids| ==> ids[i] == 0
    ensures Occupied(ids) == 0
    decreases |ids|
  {
    if |ids| > 0 {
      OccupiedNone(ids[..|ids| - 1]);
    }
  }

  /** From freshly allocated arrays, the counter read after any session is
      the 32-bit value of its value at allocation plus the number of
      occupied slots plus every direct id swap seen. */
  lemma RunFromResetCounter(t: Tracker, maxBodyCount: nat, frames: seq<seq<nat>>)
    requires forall f :: f in frames ==> |f| == maxBodyCount
    ensures var r := Run(Reset(t, maxBodyCount), frames);
      r.tracker.currentBodyCount
        == Wrap(t.currentBodyCount + Occupied(r.tracker.bodyUUIDs) + RunSwaps(Reset(t, maxBodyCount).bodyUUIDs, frames))
  {
    var s := Reset(t, maxBodyCount);
    var r := Run(s, frames);
    RunAppliesEvents(s, frames);
    RunCounterDrift(s, frames);
    OccupiedNone(s.bodyUUIDs);
    ApplyEventsWraps(s.currentBodyCount, r.events);
  }

  /** The manager allocates its arrays once, while the counter still holds
      its initial 0 and before any frame is diffed. The counter read after
      any session is then the 32-bit value of the number of occupied slots
      plus every direct id swap seen. */
  lemma SessionCounter(maxBodyCount: nat, frames: seq<seq<nat>>)
    requires forall f :: f in frames ==> |f| == maxBodyCount
    ensures var r := Run(Reset(Initial, maxBodyCount), frames);
      r.tracker.currentBodyCount
        == Wrap(Occupied(r.tracker.bodyUUIDs) + RunSwaps(Reset(Initial, maxBodyCount).bodyUUIDs, frames))
  {
    RunFromResetCounter(Initial, maxBodyCount, frames);
  }

  /** A pass keeps the counter equal to the 32-bit value of a fixed base
      plus the occupied slots plus the swaps seen, once the swaps of this
      pass are added. */
  lemma PassKeepsCounterFormula(t: Tracker, frame: seq<nat>, base: int, swaps: nat)
    requires FitsFrame(t, frame)
    requires t.currentBodyCount == Wrap(base + Occupied(t.bodyUUIDs) + swaps)
    ensures var r := Pass(t, frame).tracker;
      r.currentBodyCount == Wrap(base + Occupied(r.bodyUUIDs) + swaps + Swaps(t.bodyUUIDs, frame))
  {
    var r := Pass(t, frame);
    PassOrdersAndCountsEvents(t, frame);
    PassCounterDrift(t, frame);
    CounterFormulaStep(t, r, base, swaps, Swaps(t.bodyUUIDs, frame));
  }

  /** The arithmetic of `PassKeepsCounterFormula`, with the pass given. */
  lemma CounterFormulaStep(t: Tracker, r: PassResult, base: int, swaps: nat, more: nat)
    requires t.currentBodyCount == Wrap(base + Occupied(t.bodyUUIDs) + swaps)
    requires r.tracker.currentBodyCount == ApplyEvents(t.currentBodyCount, r.events)
    requires CountEnters(r.events) - CountExits(r.events)
      == Occupied(r.tracker.bodyUUIDs) - Occupied(t.bodyUUIDs) + more
    ensures r.tracker.currentBodyCount == Wrap(base + Occupied(r.tracker.bodyUUIDs) + swaps + more)
  {
    var d := CountEnters(r.events) - CountExits(r.events);
    var y := base + Occupied(t.bodyUUIDs) + swaps;
    ApplyEventsWraps(t.currentBodyCount, r.events);
    WrapAdd(y, d);
    assert y + d == base + Occupied(r.tracker.bodyUUIDs) + swaps + more;
  }

  // GetFirstBody on a well-formed state

  /** On a well-formed state `GetFirstBody` returns the wrapper of the lowest
      slot with a non-zero id, and null when every id is 0. */
  lemma FirstBodyIsLowestTracked(t: Tracker)
    requires WellFormed(t)
    ensures var r := FirstBody(t.kinectBodies);
      && (r.None? <==> forall i :: 0 <= i < |t.bodyUUIDs| ==> t.bodyUUIDs[i] == 0)
      && (r.Some? ==> exists i :: 0 <= i < |t.bodyUUIDs| && r == Some(KinectBody(t.bodyUUIDs[i]))
                        && t.bodyUUIDs[i] != 0
                        && forall j :: 0 <= j < i ==> t.bodyUUIDs[j] == 0)
  {
  }
}
