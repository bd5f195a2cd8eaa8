/** The per-frame slot diff of `KinectManager`: the previous tracking id of
    every body slot, the wrapper object kept for each slot, and the running
    body counter, together with the pass that compares a new frame's ids
    with the stored ones and reports bodies entering and leaving.

    A body delivered by the sensor is abstracted to its tracking id, a `nat`
    where 0 means the slot holds no tracked body. */
module BodyTracking {
  import opened Wrappers
  import opened Int32

  /** The wrapper `KinectBody` created when a body enters; it is modelled by
      the tracking id it was created for. */
  datatype KinectBody = KinectBody(uuid: nat)

  /** One invocation of `OnBodyEnter` or `OnBodyExit`, tagged with the slot
      whose change fired it. `Exit` carries whatever the slot's wrapper entry
      held, which in the C# code may be `null`. */
  datatype Event =
    | Enter(slot: nat, entered: KinectBody)
    | Exit(slot: nat, exited: Option<KinectBody>)

  /** The fields of `KinectManager` the diff reads and writes:
      `_bodyUUIDs`, `_kinectBodies` and `_currentBodyCount`. The slot count
      `_maxBodyCount` is the common length of the two arrays. */
  datatype Tracker = Tracker(
    bodyUUIDs: seq<nat>,
    kinectBodies: seq<Option<KinectBody>>,
    currentBodyCount: int32)

  /** The result of a diff pass: the new fields and the events it fired, in
      firing order. */
  datatype PassResult = PassResult(tracker: Tracker, events: seq<Event>)

  /** Both per-slot arrays have one entry per slot. */
  predicate Shaped(t: Tracker) {
    |t.kinectBodies| == |t.bodyUUIDs|
  }

  /** A frame of `n` tracking ids fits a tracker of `n` slots. */
  predicate FitsFrame(t: Tracker, frame: seq<nat>) {
    Shaped(t) && |frame| == |t.bodyUUIDs|
  }

  /** The field values before the sensor is first opened: no arrays (modelled
      as empty ones, so a diff over them does nothing) and a zero counter. */
  const Initial: Tracker := Tracker([], [], 0)

  /** The wrapper entry that belongs with a stored id: none for the empty id
      0, otherwise a wrapper for that id. */
  function Holding(id: nat): (r: Option<KinectBody>)
    ensures r.None? <==> id == 0
  {
    if id == 0 then None else Some(KinectBody(id))
  }

  /** Every wrapper entry agrees with the stored id of its slot. */
  ghost predicate WellFormed(t: Tracker) {
    && Shaped(t)
    && forall i :: 0 <= i < |t.bodyUUIDs| ==> t.kinectBodies[i] == Holding(t.bodyUUIDs[i])
  }

  /** The allocation step of `RefreshKinectStatus` once the sensor reports its
      body count: fresh arrays of that length, every id 0, every wrapper
      entry `null`. The counter is a field of its own and is left as it was. */
  function Reset(t: Tracker, maxBodyCount: nat): (r: Tracker)
    ensures |r.bodyUUIDs| == maxBodyCount && Shaped(r)
    ensures forall i :: 0 <= i < maxBodyCount ==> r.bodyUUIDs[i] == 0 && r.kinectBodies[i].None?
    ensures r.currentBodyCount == t.currentBodyCount
    ensures WellFormed(r)
  {
    Tracker(seq(maxBodyCount, _ => 0), seq(maxBodyCount, _ => None), t.currentBodyCount)
  }

  /** One iteration of the loop in `RefreshBodyArrays`, for slot `i`. */
  function SlotStep(t: Tracker, frame: seq<nat>, i: nat): (r: PassResult)
    requires FitsFrame(t, frame) && i < |frame|
    ensures FitsFrame(r.tracker, frame)
  {
    var cur := frame[i];
    if cur != t.bodyUUIDs[i] then
      if cur == 0 then
        PassResult(
          Tracker(t.bodyUUIDs[i := cur], t.kinectBodies[i := None], Decrement(t.currentBodyCount)),
          [Exit(i, t.kinectBodies[i])])
      else
        var body := KinectBody(cur);
        PassResult(
          Tracker(t.bodyUUIDs[i := cur], t.kinectBodies[i := Some(body)], Increment(t.currentBodyCount)),
          [Enter(i, body)])
    else
      PassResult(t.(bodyUUIDs := t.bodyUUIDs[i := cur]), [])
  }

  /** The loop of `RefreshBodyArrays` after its first `k` iterations. */
  function PassUpTo(t: Tracker, frame: seq<nat>, k: nat): (r: PassResult)
    requires FitsFrame(t, frame) && k <= |frame|
    ensures FitsFrame(r.tracker, frame)
    decreases k
  {
    if k == 0 then
      PassResult(t, [])
    else
      var prev := PassUpTo(t, frame, k - 1);
      var step := SlotStep(prev.tracker, frame, k - 1);
      PassResult(step.tracker, prev.events + step.events)
  }

  /** `RefreshBodyArrays`: one diff pass over every slot, in ascending order. */
  function Pass(t: Tracker, frame: seq<nat>): (r: PassResult)
    requires FitsFrame(t, frame)
    ensures FitsFrame(r.tracker, frame)
  {
    PassUpTo(t, frame, |frame|)
  }

  /** Every frame of a session has one id per slot. */
  predicate FramesFit(t: Tracker, frames: seq<seq<nat>>) {
    Shaped(t) && forall f :: f in frames ==> |f| == |t.bodyUUIDs|
  }

  /** Consecutive calls of `RefreshBodyArrays`, one per acquired frame; the
      events of all passes are collected in firing order. */
  function Run(t: Tracker, frames: seq<seq<nat>>): (r: PassResult)
    requires FramesFit(t, frames)
    ensures Shaped(r.tracker) && |r.tracker.bodyUUIDs| == |t.bodyUUIDs|
    decreases |frames|
  {
    if |frames| == 0 then
      PassResult(t, [])
    else
      var first := Pass(t, frames[0]);
      var rest := Run(first.tracker, frames[1..]);
      PassResult(rest.tracker, first.events + rest.events)
  }

  /** `GetFirstBody`: the first non-null wrapper entry, or `null` when there is
      none. */
  function FirstBody(bodies: seq<Option<KinectBody>>): (r: Option<KinectBody>)
    ensures r.None? <==> forall i :: 0 <= i < |bodies| ==> bodies[i].None?
    ensures r.Some? ==>
      exists i :: 0 <= i < |bodies| && bodies[i] == r && forall j :: 0 <= j < i ==> bodies[j].None?
    decreases |bodies|
  {
    if |bodies| == 0 then
      None
    else if bodies[0].Some? then
      bodies[0]
    else
      var r := FirstBody(bodies[1..]);
      assert r.Some? ==> exists i :: 1 <= i < |bodies| && bodies[i] == r && forall j :: 0 <= j < i ==> bodies[j].None? by {
        if r.Some? {
          var i :| 0 <= i < |bodies[1..]| && bodies[1..][i] == r && forall j :: 0 <= j < i ==> bodies[1..][j].None?;
          assert forall j :: 0 <= j < i + 1 ==> bodies[j].None? by {
            forall j | 0 <= j < i + 1 ensures bodies[j].None? {
              if j > 0 { assert bodies[j] == bodies[1..][j - 1]; }
            }
          }
        }
      }
      r
  }

  // Tallies over event logs and id arrays

  /** The events of a log that belong to slot `j`, in log order. */
  function EventsAt(events: seq<Event>, j: nat): seq<Event>
    decreases |events|
  {
    if |events| == 0 then []
    else
      var last := events[|events| - 1];
      EventsAt(events[..|events| - 1], j) + (if last.slot == j then [last] else [])
  }

  /** Events are logged in strictly ascending slot order. */
  predicate Ascending(events: seq<Event>) {
    forall a, b :: 0 <= a < b < |events| ==> events[a].slot < events[b].slot
  }

  /** The number of `Enter` events in a log. */
  function CountEnters(events: seq<Event>): nat
    decreases |events|
  {
    if |events| == 0 then 0
    else CountEnters(events[..|events| - 1]) + (if events[|events| - 1].Enter? then 1 else 0)
  }

  /** The number of `Exit` events in a log. */
  function CountExits(events: seq<Event>): nat
    decreases |events|
  {
    if |events| == 0 then 0
    else CountExits(events[..|events| - 1]) + (if events[|events| - 1].Exit? then 1 else 0)
  }

  /** The counter after one wrapping `++` per `Enter` and one wrapping `--`
      per `Exit` of a log, in log order. */
  function ApplyEvents(count: int32, events: seq<Event>): int32
    decreases |events|
  {
    if |events| == 0 then count
    else
      var before := ApplyEvents(count, events[..|events| - 1]);
      if events[|events| - 1].Enter? then Increment(before) else Decrement(before)
  }

  /** The number of slots whose id is not the empty id 0. */
  function Occupied(ids: seq<nat>): nat
    decreases |ids|
  {
    if |ids| == 0 then 0
    else Occupied(ids[..|ids| - 1]) + (if ids[|ids| - 1] != 0 then 1 else 0)
  }

  /** The number of slots whose id changes from one non-zero id straight to
      another between `prev` and `cur`. */
  function Swaps(prev: seq<nat>, cur: seq<nat>): nat
    requires |prev| == |cur|
    decreases |cur|
  {
    if |cur| == 0 then 0
    else
      var n := |cur| - 1;
      Swaps(prev[..n], cur[..n]) + (if prev[n] != 0 && cur[n] != 0 && prev[n] != cur[n] then 1 else 0)
  }

  /** The direct id swaps seen over a whole session of frames, starting from
      the stored ids `ids`: each frame is compared with the one before it. */
  function RunSwaps(ids: seq<nat>, frames: seq<seq<nat>>): nat
    requires forall f :: f in frames ==> |f| == |ids|
    decreases |frames|
  {
    if |frames| == 0 then 0
    else Swaps(ids, frames[0]) + RunSwaps(frames[0], frames[1..])
  }
}
