/** Concrete sessions of the slot diff, starting from the state right after
    the body arrays are allocated. */
module BodyTrackingScenarios {
  import opened Wrappers
  import opened BodyTracking

  /** Three slots: a body enters slot 0, a second body enters slot 1, then
      the first one leaves. */
  lemma EnterEnterExit()
    ensures var p1 := Pass(Reset(Initial, 3), [5, 0, 0]);
      var p2 := Pass(p1.tracker, [5, 7, 0]);
      var p3 := Pass(p2.tracker, [0, 7, 0]);
      && p1.events == [Enter(0, KinectBody(5))]
      && p1.tracker == Tracker([5, 0, 0], [Some(KinectBody(5)), None, None], 1)
      && p2.events == [Enter(1, KinectBody(7))]
      && p2.tracker.currentBodyCount == 2
      && p3.events == [Exit(0, Some(KinectBody(5)))]
      && p3.tracker == Tracker([0, 7, 0], [None, Some(KinectBody(7)), None], 1)
  {
  }

  /** One slot whose id changes from 5 straight to 9: the second pass fires
      a single `Enter` and no `Exit`, so the slot has seen two entries and
      no exit, and the counter reads 2 while one slot is occupied. */
  lemma DirectSwap()
    ensures var p1 := Pass(Reset(Initial, 1), [5]);
      var p2 := Pass(p1.tracker, [9]);
      && p1.events == [Enter(0, KinectBody(5))]
      && p2.events == [Enter(0, KinectBody(9))]
      && p2.tracker == Tracker([9], [Some(KinectBody(9))], 2)
      && Occupied(p2.tracker.bodyUUIDs) == 1
  {
  }
}
