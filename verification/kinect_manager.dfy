/** The `KinectManager` component with its arrays and counter as mutable
    state, following the C# loops statement by statement. Each method is
    proved to compute the same result as the functional model in
    `BodyTracking`. The SDK's body frame is passed in as the sequence of its
    tracking ids, and the `OnBodyEnter`/`OnBodyExit` invocations are
    returned as the sequence of events fired. */
module KinectManagerModel {
  import opened Wrappers
  import opened Int32
  import opened BodyTracking
  import opened BodyTrackingProofs

  class KinectManager {
    var maxBodyCount: nat
    var bodyUUIDs: array<nat>
    var kinectBodies: array<Option<KinectBody>>
    var currentBodyCount: int32
    /** The counter's value when the arrays were last allocated. */
    ghost var countAtAllocation: int32
    /** The direct id swaps seen since then. */
    ghost var swapsSeen: nat

    /** Both arrays have `maxBodyCount` entries, and the counter is the
        32-bit value of its value at allocation plus the occupied slots plus
        the swaps seen. */
    ghost predicate Valid()
      reads this, bodyUUIDs, kinectBodies
    {
      && bodyUUIDs.Length == maxBodyCount && kinectBodies.Length == maxBodyCount
      && currentBodyCount == Wrap(countAtAllocation + Occupied(bodyUUIDs[..]) + swapsSeen)
    }

    /** The fields as a value of the functional model. */
    function State(): Tracker
      reads this, bodyUUIDs, kinectBodies
    {
      Tracker(bodyUUIDs[..], kinectBodies[..], currentBodyCount)
    }

    /** The `currentBodyCount` property. */
    function CurrentBodyCount(): (r: int32)
      requires Valid()
      reads this, bodyUUIDs, kinectBodies
      ensures r == Wrap(countAtAllocation + Occupied(bodyUUIDs[..]) + swapsSeen)
    {
      currentBodyCount
    }

    /** The field initialisers: a zero counter and no slots. The C# arrays
        are still null here; they are modelled as empty arrays. */
    constructor ()
      ensures Valid() && State() == Initial
      ensures countAtAllocation == 0 && swapsSeen == 0
    {
      maxBodyCount := 0;
      bodyUUIDs := new nat[0];
      kinectBodies := new Option<KinectBody>[0];
      currentBodyCount := 0;
      countAtAllocation := 0;
      swapsSeen := 0;
    }

    /** The allocation block of `RefreshKinectStatus` once the sensor is
        present: arrays of the reported body count, every id set to 0. */
    method AllocateBodyArrays(bodyCount: nat)
      modifies this
      ensures Valid() && maxBodyCount == bodyCount
      ensures fresh(bodyUUIDs) && fresh(kinectBodies)
      ensures State() == Reset(old(State()), bodyCount)
      ensures countAtAllocation == currentBodyCount && swapsSeen == 0
    {
      var ids := new nat[bodyCount];
      for i := 0 to bodyCount
        modifies ids
        invariant forall j :: 0 <= j < i ==> ids[j] == 0
      {
        ids[i] := 0;
      }
      maxBodyCount := bodyCount;
      kinectBodies := new Option<KinectBody>[bodyCount](_ => None);
      bodyUUIDs := ids;
      countAtAllocation := currentBodyCount;
      swapsSeen := 0;
      ghost var reset := Reset(old(State()), bodyCount);
      assert bodyUUIDs[..] == reset.bodyUUIDs;
      assert kinectBodies[..] == reset.kinectBodies;
      OccupiedNone(bodyUUIDs[..]);
    }

    /** `RefreshBodyArrays` on the ids of one acquired frame. */
    method RefreshBodyArrays(frame: seq<nat>) returns (events: seq<Event>)
      requires Valid() && |frame| == maxBodyCount
      modifies this, bodyUUIDs, kinectBodies
      ensures Valid() && bodyUUIDs == old(bodyUUIDs) && kinectBodies == old(kinectBodies)
      ensures PassResult(State(), events) == Pass(old(State()), frame)
      ensures countAtAllocation == old(countAtAllocation)
      ensures swapsSeen == old(swapsSeen) + Swaps(old(bodyUUIDs[..]), frame)
    {
      ghost var start := State();
      events := CompareSlots(frame);
      PassKeepsCounterFormula(start, frame, countAtAllocation, swapsSeen);
      swapsSeen := swapsSeen + Swaps(start.bodyUUIDs, frame);
    }

    /** The loop of `RefreshBodyArrays`: compares every slot's stored id with
        the frame's id, in ascending slot order. */
    method CompareSlots(frame: seq<nat>) returns (events: seq<Event>)
      requires bodyUUIDs.Length == maxBodyCount && kinectBodies.Length == maxBodyCount
      requires |frame| == maxBodyCount
      modifies this`currentBodyCount, bodyUUIDs, kinectBodies
      ensures PassResult(State(), events) == Pass(old(State()), frame)
    {
      ghost var start := State();
      events := [];
      for i := 0 to maxBodyCount
        invariant PassResult(State(), events) == PassUpTo(start, frame, i)
      {
        if frame[i] != bodyUUIDs[i] {
          if frame[i] == 0 {
            events := events + [Exit(i, kinectBodies[i])];
            kinectBodies[i] := None;
            currentBodyCount := Decrement(currentBodyCount);
          } else {
            var kinectBody := KinectBody(frame[i]);
            events := events + [Enter(i, kinectBody)];
            kinectBodies[i] := Some(kinectBody);
            currentBodyCount := Increment(currentBodyCount);
          }
        }
        bodyUUIDs[i] := frame[i];
      }
    }

    /** `GetFirstBody`: scans the wrapper entries in index order. */
    method GetFirstBody() returns (b: Option<KinectBody>)
      ensures b == FirstBody(kinectBodies[..])
    {
      for i := 0 to kinectBodies.Length
        invariant forall j :: 0 <= j < i ==> kinectBodies[j].None?
      {
        if kinectBodies[i].Some? {
          b := kinectBodies[i];
          FirstBodyAt(kinectBodies[..], i);
          return;
        }
      }
      b := None;
    }
  }

  /** The first non-null entry determines `FirstBody`. */
  lemma FirstBodyAt(bodies: seq<Option<KinectBody>>, i: nat)
    requires i < |bodies| && bodies[i].Some?
    requires forall j :: 0 <= j < i ==> bodies[j].None?
    ensures FirstBody(bodies) == bodies[i]
  {
  }
}
