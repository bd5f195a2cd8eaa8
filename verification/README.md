# KinectManager body-slot diff, modelled in Dafny

`KinectManager` is a Unity component around the Kinect v2 SDK. The sensor
reports a fixed number of body slots per frame, and each slot carries a
`TrackingId`, where 0 means the slot is empty. Once per acquired frame,
`RefreshBodyArrays` compares every slot's id with the id it stored on the
previous frame:

- an id that changed to 0 fires `OnBodyExit` with the slot's `KinectBody`
  wrapper, nulls the wrapper and decrements `_currentBodyCount`;
- an id that changed to any non-zero id fires `OnBodyEnter` with a new
  wrapper, stores it and increments the counter;
- in every case the new id is then stored.

A direct change from one non-zero id to another fires only `OnBodyEnter`.
No `OnBodyExit` is fired for the body that left, so the counter climbs
one above the number of occupied slots. The model keeps this behaviour as
written and proves its consequences.

Project layout:

- `wrappers.dfy` (`Wrappers`): `Option`, which stands for a nullable
  reference.
- `int32.dfy` (`Int32`): the C# `int` counter. `++` and `--` wrap around at
  the 32-bit bounds, since C# arithmetic is unchecked by default. `Wrap`
  gives the same wrap-around modulo 2^32.
- `body_tracking.dfy` (`BodyTracking`): the functional model.
  - `Tracker` holds `_bodyUUIDs`, `_kinectBodies` and `_currentBodyCount`.
  - `Reset` is the array allocation in `RefreshKinectStatus`.
  - `SlotStep`, `PassUpTo` and `Pass` are one loop iteration, the first `k`
    iterations, and a whole `RefreshBodyArrays` call.
  - `Run` is consecutive calls, one per frame.
  - `FirstBody` is `GetFirstBody`.
  - A `KinectBody` wrapper is the id it was created for.
  - Delegate invocations are an output log of `Enter(slot, body)` and
    `Exit(slot, wrapper-or-null)` events.
- `body_tracking_proofs.dfy` (`BodyTrackingProofs`): the properties, with
  `WellFormed` as the session invariant. `WellFormed` means every wrapper
  entry is null exactly when its id is 0, and otherwise holds that id.
- `kinect_manager.dfy` (`KinectManagerModel`): the class with its arrays,
  its counter and the C# loops. Each method is proved equal to the
  functional model. Two ghost fields record the counter's value at
  allocation and the direct id swaps seen since, and the class invariant
  ties the counter to them.
- `scenarios.dfy` (`BodyTrackingScenarios`): concrete sessions.

The SDK frame is passed in as the sequence of its slots' tracking ids. It
is required to have one id per slot, as the source's `_bodies` array does.

Consequences of the code as written, each proved in the model:

- A direct change from one non-zero id to another fires only Enter, never
  Exit (`BodyTrackingScenarios.DirectSwap`).
- A slot can therefore fire two Enters with no Exit between them
  (`BodyTrackingScenarios.DirectSwap`).
- Once a swap happens, the counter no longer equals the number of occupied
  slots. It runs one above per swap seen (`BodyTrackingProofs.RunFromResetCounter`).
- Allocation does not reset `_currentBodyCount` (`BodyTracking.Reset`).
  In the program this never shows. `RefreshKinectStatus` is started once
  (KinectManager.cs:58) and stops after allocating (KinectManager.cs:109),
  before any frame is diffed. So the counter at allocation is its initial 0
  (`BodyTrackingProofs.SessionCounter`).
- Nothing checks the frame's length against `_maxBodyCount`. Here one id per
  slot is a precondition.

## Model

| member | source | states |
|---|---|---|
| BodyTracking.Reset | KinectManager.cs:102-108 | Allocation gives arrays of `maxBodyCount` slots. Every stored id is 0 and every wrapper entry is null. The counter keeps its previous value. The result satisfies the wrapper/id invariant. |
| KinectManagerModel.KinectManager.constructor | KinectManager.cs:33-38 | A new manager has no slots and a zero counter; its state is `Initial`. No swap has been seen. |
| KinectManagerModel.KinectManager.AllocateBodyArrays | KinectManager.cs:102-108 | The imperative allocation, including the zeroing loop, leaves exactly the state `Reset` describes, in fresh arrays. It records the counter's value at allocation and clears the swaps seen. |
| BodyTracking.FirstBody | KinectManager.cs:155-163 | `GetFirstBody` returns null exactly when every wrapper entry is null. Otherwise it returns the entry at some index all of whose predecessors are null. |
| KinectManagerModel.KinectManager.GetFirstBody | KinectManager.cs:155-163 | The index-order scan over the wrapper array returns the same entry as `FirstBody`. |
| BodyTrackingProofs.FirstBodyIsLowestTracked | KinectManager.cs:155-162 | On a well-formed state, `GetFirstBody` is null exactly when every stored id is 0. Otherwise it is the wrapper for the id of the lowest slot with a non-zero id. |
| BodyTracking.SlotStep | KinectManager.cs:120-144 | One loop iteration keeps one id and one wrapper entry per slot, for a frame of the same length. Its effect on each slot is stated by `SlotStepEffect`. |
| BodyTrackingProofs.SlotStepEffect | KinectManager.cs:120-144 | Iteration `i` touches only slot `i`. It stores the current id there. An unchanged id fires nothing and keeps the wrapper. An id changed to 0 fires one Exit with the old entry and nulls it. An id changed to non-zero fires one Enter with a new wrapper and stores it. |
| BodyTracking.PassUpTo | KinectManager.cs:118-146 | The first `k` loop iterations keep one id and one wrapper entry per slot. Their effect is stated by `PassUpToUntouched` and `PassUpToSlot`. |
| BodyTrackingProofs.PassUpToUntouched | KinectManager.cs:119 | After the first `k` iterations, every slot at or above `k` keeps its id and wrapper entry and has fired no event. |
| BodyTrackingProofs.PassUpToSlot | KinectManager.cs:119-144 | After the first `k` iterations, every slot below `k` holds its current id, with the wrapper entry and the events its case prescribes. |
| BodyTracking.Pass | KinectManager.cs:118-146 | A `RefreshBodyArrays` call keeps one id and one wrapper entry per slot. Its behaviour is stated by the `Pass*` lemmas. |
| BodyTracking.Run | KinectManager.cs:61-75 | Calling `RefreshBodyArrays` once per acquired frame keeps the slot count. Its behaviour is stated by the `Run*` lemmas. |
| KinectManagerModel.KinectManager.CurrentBodyCount | KinectManager.cs:23 | On a manager whose invariant holds, the `currentBodyCount` getter returns the 32-bit wrap of the counter's value at allocation plus the occupied slots plus the direct id swaps seen since. |
| KinectManagerModel.KinectManager.CompareSlots | KinectManager.cs:119-144 | The `for` loop over the slots, updating the arrays in place, leaves the arrays and counter that `Pass` computes and fires exactly its events, in order. It writes only the two arrays and the counter. |
| KinectManagerModel.KinectManager.RefreshBodyArrays | KinectManager.cs:118-146 | The method keeps both arrays (same objects, same length) and, through `CompareSlots`, leaves the arrays and counter that `Pass` computes. It fires exactly the events of `Pass`, in the same order. It keeps the manager's invariant, adding this frame's direct id swaps to the swaps seen. |
| BodyTrackingProofs.PassStoresCurrentIds | KinectManager.cs:119-144 | After a pass, the stored id of every slot equals that slot's current id. |
| BodyTrackingProofs.PassKeepsUnchangedSlot | KinectManager.cs:120 | A slot whose current id equals its stored id fires no event and keeps its wrapper entry. |
| BodyTrackingProofs.PassExitsEmptiedSlot | KinectManager.cs:121-129 | A slot whose id changed to 0 fires exactly one event for that slot. The event is an Exit carrying the slot's previous wrapper entry. The entry becomes null. |
| BodyTrackingProofs.PassEntersChangedSlot | KinectManager.cs:131-141 | A slot whose id changed to a non-zero id fires exactly one event for that slot. The event is an Enter with a new wrapper for the id, and the wrapper is stored. No Exit fires, even when the old id was a different non-zero id. |
| BodyTrackingProofs.PassOrdersAndCountsEvents | KinectManager.cs:119-141 | A pass fires events in strictly ascending slot order, each for an existing slot. The counter takes one wrapping `++` per Enter and one wrapping `--` per Exit. |
| BodyTrackingProofs.ApplyEventsWraps | KinectManager.cs:129-141 | Applying a log's `++`/`--` steps to the counter gives the 32-bit wrap of the counter plus #Enter - #Exit. So a pass moves the counter by #Enter - #Exit modulo 2^32. |
| BodyTrackingProofs.PassIdempotent | KinectManager.cs:118-146 | A second pass over the same frame fires no event and changes no field. |
| BodyTrackingProofs.PassPreservesWellFormed | KinectManager.cs:118-146 | If every wrapper entry agrees with its stored id before a pass, it still does after the pass. |
| BodyTrackingProofs.PassExitCarriesPreviousBody | KinectManager.cs:121-126 | From a well-formed state, every Exit is for a slot whose previous id was non-zero. It carries that id's wrapper and never null. |
| BodyTrackingProofs.PassCounterDrift | KinectManager.cs:119-144 | Over one pass, #Enter - #Exit equals the change in the number of occupied slots plus the number of direct non-zero-to-non-zero id swaps. |
| BodyTrackingProofs.RunPreservesWellFormed | KinectManager.cs:61-75 | Across any sequence of frames, each passed to `RefreshBodyArrays` in turn, the wrapper/id invariant is kept. |
| BodyTrackingProofs.RunFromResetTracksOccupancy | KinectManager.cs:102-146 | Start from freshly allocated arrays and run any number of passes. Then a slot's wrapper entry is non-null exactly when its stored id is non-zero, and the wrapper holds that id. |
| BodyTrackingProofs.RunAppliesEvents | KinectManager.cs:61-75 | Across a session, the counter takes one wrapping `++` per Enter and one wrapping `--` per Exit, over all events fired. |
| BodyTrackingProofs.RunCounterDrift | KinectManager.cs:118-146 | Across a session, #Enter - #Exit equals the change in occupied slots plus every direct id swap seen. |
| BodyTrackingProofs.PassKeepsCounterFormula | KinectManager.cs:119-144 | If the counter is the 32-bit wrap of a base plus the occupied slots plus some swaps, then after a pass it is the same with this frame's direct id swaps added. |
| BodyTrackingProofs.RunFromResetCounter | KinectManager.cs:23 | After allocation and any session, `currentBodyCount` is the 32-bit wrap of three terms added together: its value at allocation, the number of occupied slots, and the number of direct id swaps between consecutive frames. With no swap seen, it is the 32-bit wrap of its allocation value plus the number of occupied slots. |
| BodyTrackingProofs.SessionCounter | KinectManager.cs:23 | Allocated while the counter is still its initial 0, after any session `currentBodyCount` is the 32-bit wrap of the occupied slots plus the direct id swaps between consecutive frames. |
| BodyTrackingScenarios.EnterEnterExit | KinectManager.cs:118-146 | With three slots, frames [5,0,0], [5,7,0] and [0,7,0] fire Enter(0,5), then Enter(1,7), then Exit(0,5). The counter reads 1, 2 and 1. |
| BodyTrackingScenarios.DirectSwap | KinectManager.cs:120-144 | With one slot, frames [5] and [9] fire Enter(0,5) and then only Enter(0,9). The counter reads 2 while one slot is occupied. |
| Int32.Increment | KinectManager.cs:141 | Unchecked `_currentBodyCount++` adds one below `int.MaxValue`, and in every case stores the 32-bit wrap of the value plus one, so `int.MaxValue` becomes `int.MinValue`. |
| Int32.Decrement | KinectManager.cs:129 | Unchecked `_currentBodyCount--` subtracts one above `int.MinValue`, and in every case stores the 32-bit wrap of the value minus one, so `int.MinValue` becomes `int.MaxValue`. |
| Int32.IncrementWraps | KinectManager.cs:141 | `_currentBodyCount++` on the wrapped value of `y` stores the wrapped value of `y + 1`. |
| Int32.DecrementWraps | KinectManager.cs:129 | `_currentBodyCount--` on the wrapped value of `y` stores the wrapped value of `y - 1`. |
| Int32.WrapAdd | KinectManager.cs:129-141 | Adding to a stored 32-bit counter and wrapping again gives the wrap of the whole sum, so the counter's wrap-arounds can be taken once at the end. |

## Left out

- Unity lifecycle: the singleton in `Awake`, `Start`, `DontDestroyOnLoad` and `OnApplicationQuit`. These are engine bindings with no slot logic.
- Frame acquisition in `Update` (`AcquireLatestFrame`, `GetAndRefreshBodyData`, `Dispose`) is vendor SDK I/O. The frame's ids are a parameter, and `Run` models one `RefreshBodyArrays` call per acquired frame.
- The `RefreshKinectStatus` coroutine (`WaitForSeconds`, `OpenReader`, `Open`, `IsAvailable`, `_available`) is host scheduling and device I/O. Only its array allocation is modelled. The body count it reads from the sensor is a parameter.
- The `_bodies` array of SDK `Body` objects is replaced by the frame's ids. Its entries are assumed non-null once the SDK has filled them.
- `OnRenderOnscreenStats` and the `print` calls only format and log text.
- The `OnBodyEnter`/`OnBodyExit` null checks are left out. An event is recorded whether or not anyone subscribed.
- Handlers are assumed not to throw and not to call back into the manager. In C# a handler runs in the middle of an iteration, before that slot's wrapper, counter and id writes. A throwing handler aborts the pass with that slot and all later slots unprocessed. A handler that calls `GetFirstBody` during an Exit still sees the outgoing wrapper. The model records each invocation as a log entry and applies each iteration as a whole.
- The `isAvailable` and `kinectUUID` properties read device state.
- KinectManagerModel.KinectManager.GetFirstBody: before the first allocation the C# arrays are null, and `GetFirstBody` throws a NullReferenceException. The model represents the unallocated arrays as empty ones, so there it returns null instead. The same applies to `BodyTracking.Initial` and the constructor.
- A `KinectBody` holds a live reference to the SDK's mutable `Body`, so its `uuid` follows later frames. Here a wrapper is the id captured at creation. Two wrappers with the same id are equal values, where in C# they are distinct objects.
- Tracking ids are C# `ulong`. They are modelled as `nat` because they are only compared, never computed with.

