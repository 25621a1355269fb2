# biometryd: the Identifier skeleton and the Android backend

biometryd is a daemon that exposes fingerprint devices on the message bus.
This project models two of its parts and proves properties about them.

**The Identifier skeleton request pipeline** (`IdentifierSkeleton`,
`RequestVerifier`, `Bus`, `Numerals`). An `IdentifyUser` call is handled once
its caller's credentials are resolved, and the handling is one atomic step:

- Absent credentials get a `NotPermitted` error reply.
- Otherwise the declared application and reason are read from the call, and
  the request verifier is asked whether the caller may act for that
  application. A refusal gets a `NotPermitted` error reply.
- Otherwise:
  - the backend identifier is called with the declared application and
    reason;
  - an object path is built from four parts: the skeleton's path, the
    caller's application, the caller's user id, and the next counter value;
  - the backend's operation is registered under that path;
  - the path is returned to the caller.

`IdentifyUserStep` is this step on abstract state: the counter, the registry,
the outbox of replies and the log of backend calls. The class
`IdentifierSkeleton.Identifier` holds that state in fields. Its method
`IdentifyUser` updates them in the handler's order and is proved equal to the
step. An invariant `Inv` is kept by every step. From it follows that every
path returned over the daemon's lifetime is unique, and that the registry
holds exactly the returned paths.

**The Android backend** (`Operation`, `Android`). Every capability of the
Android HAL bridge device returns one kind of operation, bound to the device's
HAL handle:

- Starting it reports `Started` and then success with a default result to its
  observer. The observer is modelled as the trace of the callbacks it received.
- Cancelling it only forwards to the HAL.

The trace of one start is proved well formed: Started first, progress only in
between, and exactly one terminal event, which comes last. `Daemon` connects
the two parts: a skeleton serving the Android identifier registers only
identification operations bound to the device's handle.

Credential resolution, the bus and the HAL are inputs and logs:

- the outcome of resolving a caller's credentials is an `Option<Credentials>`
  passed to the step;
- replies are appended to an outbox;
- calls into the backend and the HAL are logged.

## Model

| member | source | states |
|---|---|---|
| RequestVerifier.VerifyIdentifyUserRequest | src/biometry/dbus/skeleton/identifier.cpp:39-47 | a request for the caller's own application is accepted; any request by an `unconfined` caller is accepted; every other request is refused |
| RequestVerifier.ConfinedCallerOnlyForItself | src/biometry/dbus/skeleton/identifier.cpp:41-46 | a caller that is not unconfined is accepted exactly when it declares its own application (both directions) |
| RequestVerifier.UnconfinedCallerForAnyone | src/biometry/dbus/skeleton/identifier.cpp:45-46 | for an unconfined caller the verdict does not depend on the declared application |
| IdentifierSkeleton.NotPermittedInReplyTo | src/biometry/dbus/skeleton/identifier.cpp:33-36 | the reply is an error answering the given call, named NotPermitted, with empty detail |
| IdentifierSkeleton.OperationPath | src/biometry/dbus/skeleton/identifier.cpp:102-109 | the path starts with the skeleton's path followed by `/operation/identification/`, and its last segment reads back as the counter value |
| IdentifierSkeleton.OperationPathDeterminesCounter | src/biometry/dbus/skeleton/identifier.cpp:102-109 | two paths built by one skeleton are equal only if their counter values are equal, whatever the two callers' credentials |
| IdentifierSkeleton.Reject | src/biometry/dbus/skeleton/identifier.cpp:85-98 | a rejected call gets exactly one error reply answering it; earlier replies are kept; no path is returned; the counter, the registry and the backend log are unchanged |
| IdentifierSkeleton.Publish | src/biometry/dbus/skeleton/identifier.cpp:100-118 | an accepted call advances the counter once and logs one backend call with the declared application and reason. The registry gains exactly the key built from the next counter value, mapped to the backend's operation. One method return answers the call, and the returned paths grow by exactly that key |
| IdentifierSkeleton.IdentifyUserStep | src/biometry/dbus/skeleton/identifier.cpp:83-119 | every handled call gets exactly one reply, answering it, and earlier replies are kept. The reply is a method return if and only if the credentials resolved and the verifier accepted. Exactly then the counter advances, by one |
| IdentifierSkeleton.InitialInv | src/biometry/dbus/skeleton/identifier.cpp:67-80 | a freshly built skeleton, with an empty registry and nothing sent, satisfies the invariant |
| IdentifierSkeleton.AbsentCredentialsRejected | src/biometry/dbus/skeleton/identifier.cpp:85-89 | absent credentials add exactly one NotPermitted reply with empty detail; the counter, the registry and the backend log are unchanged |
| IdentifierSkeleton.RefusedRequestRejected | src/biometry/dbus/skeleton/identifier.cpp:91-98 | a refused request adds exactly one NotPermitted reply; the backend is not called, the counter does not advance, and the registry is unchanged |
| IdentifierSkeleton.AcceptedRequestPublished | src/biometry/dbus/skeleton/identifier.cpp:91-118 | an accepted request calls the backend with the declared application and reason; the path is the literal five-part concatenation with the next counter value; the counter advances once; that path and the backend's operation are registered; the only reply is a method return carrying that path |
| IdentifierSkeleton.NextPathFresh | src/biometry/dbus/skeleton/identifier.cpp:108-114 | under the invariant, a path ending in the next counter value is not yet in the registry |
| IdentifierSkeleton.PublishNeverOverwrites | src/biometry/dbus/skeleton/identifier.cpp:108-114 | the registry insert adds exactly one new key and keeps every earlier entry as it was |
| IdentifierSkeleton.RegisterKeepsReturnedRegistered | src/biometry/dbus/skeleton/identifier.cpp:111-118 | after the insert and the reply, the k-th returned path still ends in k + 1 and is still registered with the k-th backend operation; the new path is the last one |
| IdentifierSkeleton.RegisterKeepsRegisteredReturned | src/biometry/dbus/skeleton/identifier.cpp:111-118 | after the insert and the reply, every registered path is the returned path its last segment names |
| IdentifierSkeleton.RegisterPreservesInv | src/biometry/dbus/skeleton/identifier.cpp:111-118 | registering an operation under a path ending in the next counter value, and returning that path, keeps the invariant |
| IdentifierSkeleton.PublishPreservesInv | src/biometry/dbus/skeleton/identifier.cpp:100-118 | an accepted call keeps the invariant |
| IdentifierSkeleton.RejectPreservesInv | src/biometry/dbus/skeleton/identifier.cpp:85-98 | a rejected call keeps the invariant |
| IdentifierSkeleton.StepPreservesInv | src/biometry/dbus/skeleton/identifier.cpp:83-119 | every handled call keeps the invariant. The invariant: the k-th returned path ends in k + 1 and is registered with the k-th backend operation; every registered path was returned; the counter equals the number of returned paths, backend calls and registry entries |
| IdentifierSkeleton.ReturnedPathsDistinct | src/biometry/dbus/skeleton/identifier.cpp:102-118 | under the invariant, all returned paths are pairwise distinct |
| IdentifierSkeleton.ConsecutivePathsDistinct | src/biometry/dbus/skeleton/identifier.cpp:102-109 | two accepted calls in a row from the same caller are answered with different paths |
| IdentifierSkeleton.RunPreservesInv | src/biometry/dbus/skeleton/identifier.cpp:81-120 | any sequence of handled calls keeps the invariant |
| IdentifierSkeleton.RegistryIsReturned | src/biometry/dbus/skeleton/identifier.cpp:111-118 | under the invariant, the registry keys are exactly the returned paths, one entry each |
| IdentifierSkeleton.LifetimePathsUnique | src/biometry/dbus/skeleton/identifier.cpp:81-120 | from start-up, over any sequence of calls, the returned paths are pairwise distinct and the registry holds exactly them |
| IdentifierSkeleton.AbsentCredentialsNeverPublish | src/biometry/dbus/skeleton/identifier.cpp:85-89 | when no call's credentials resolve, each call gets its NotPermitted reply, in order; the counter, the registry and the backend log never change |
| IdentifierSkeleton.Identifier.constructor | src/biometry/dbus/skeleton/identifier.cpp:67-80 | the new skeleton is in the initial state and satisfies the invariant |
| IdentifierSkeleton.Identifier.ForwardIdentifyUser | src/biometry/dbus/skeleton/identifier.cpp:62-65 | returns what the backend identifier returns for the same application and reason, and logs the call |
| IdentifierSkeleton.Identifier.IdentifyUser | src/biometry/dbus/skeleton/identifier.cpp:81-120 | the in-place handler keeps the invariant and leaves the fields exactly as IdentifyUserStep says |
| Numerals.DecimalString | src/biometry/dbus/skeleton/identifier.cpp:104-108 | the rendering of the user id and the counter is non-empty and digits only, so it holds no `/`; DigitsValueOfDecimal reads it back |
| Numerals.DigitsValueOfDecimal | src/biometry/dbus/skeleton/identifier.cpp:104-108 | the decimal rendering of the counter reads back as the counter |
| Numerals.DecimalStringInjective | src/biometry/dbus/skeleton/identifier.cpp:104-108 | distinct counter values are rendered as distinct strings |
| Bus.LastSegmentValueOfJoin | src/biometry/dbus/skeleton/identifier.cpp:104-108 | after a final `/` and a slash-free segment, the path's last segment reads as that segment, whatever comes before |
| Operation.Observer.OnStarted | src/biometry/devices/android.cpp:39 | the started callback appends exactly one Started event to the observer's trace |
| Operation.Observer.OnSucceeded | src/biometry/devices/android.cpp:40-41 | the success callback appends exactly one Succeeded event carrying the given result |
| Operation.WellFormedCounts | src/biometry/devices/android.cpp:37-42 | a well-formed trace holds exactly one Started and exactly one terminal event |
| Operation.CountsWellFormed | src/biometry/devices/android.cpp:37-42 | a trace that starts with Started, ends terminally, and holds one Started and one terminal event is well formed |
| Operation.WellFormedIff | src/biometry/devices/android.cpp:37-42 | well formed if and only if: starts with Started, ends with a terminal event, and holds exactly one of each |
| Android.StartTrace | src/biometry/devices/android.cpp:37-42 | the trace of one start is well formed, has one Started and one terminal event, and has no progress, failure or cancellation |
| Android.AndroidOperation.StartWithObserver | src/biometry/devices/android.cpp:37-42 | the observer receives Started and then success with the default result of the operation's capability, and nothing else |
| Android.AndroidOperation.Cancel | src/biometry/devices/android.cpp:44-47 | cancelling makes one cancel call on the operation's HAL handle and touches no observer |
| Android.AndroidTemplateStore.Size | src/biometry/devices/android.cpp:59-62 | a size query on the store's handle, whatever the application and user |
| Android.AndroidTemplateStore.List | src/biometry/devices/android.cpp:64-67 | a list operation on the store's handle, whatever the application and user |
| Android.AndroidTemplateStore.Enroll | src/biometry/devices/android.cpp:69-72 | an enrollment on the store's handle, whatever the application and user |
| Android.AndroidTemplateStore.Remove | src/biometry/devices/android.cpp:74-77 | a removal on the store's handle, whatever the application, user and template id |
| Android.AndroidTemplateStore.Clear | src/biometry/devices/android.cpp:79-82 | a clearance on the store's handle, whatever the application and user |
| Android.AndroidIdentifier.IdentifyUser | src/biometry/devices/android.cpp:89-92 | an identification on the identifier's handle, whatever the application and reason |
| Android.AndroidVerifier.VerifyUser | src/biometry/devices/android.cpp:99-102 | a verification on the verifier's handle, whatever the application, user and reason |
| Android.AndroidDevice.TemplateStore | src/biometry/devices/android.cpp:111-114 | in a device built from one handle, the template store returned shares that handle with the identifier and the verifier |
| Android.AndroidDevice.Identifier | src/biometry/devices/android.cpp:116-119 | in a device built from one handle, the identifier returned shares that handle with the template store and the verifier |
| Android.AndroidDevice.Verifier | src/biometry/devices/android.cpp:121-124 | in a device built from one handle, the verifier returned shares that handle with the template store and the identifier |
| Android.NewDevice | src/biometry/devices/android.cpp:104-124 | the three parts of a new device are built from one handle, and the template store, identifier and verifier accessors all return parts built from the handle it was given |
| Android.DeviceOperationsShareHandle | src/biometry/devices/android.cpp:59-124 | every operation any of a device's capabilities hands out is bound to the device's handle |
| Android.FactoriesIgnoreArguments | src/biometry/devices/android.cpp:59-102 | each factory gives the same operation for any two argument lists |
| Daemon.PublishedOperationsOnDeviceHandle | src/biometry/dbus/skeleton/identifier.cpp:100-114 | a skeleton whose backend is the Android identifier registers, in any reachable state, only identification operations on the device's handle |

## Left out

- Credential resolution on the bus is asynchronous and foreign. Its outcome is an input to the step, and the step runs atomically once it arrives.
- IdentifierSkeleton.IdentifyUserStep: the backend call (`identify_user`) and the object export with its relay (`add_object_for_path`, `create_for_object`) always succeed in the model. In the source the handler catches nothing, so a failure in either leaves the call with no reply. A failure in the export comes after the counter was advanced, so it also uses up a counter value, and the registry may already hold a default entry for the path. The invariant's equal counts of counter, returned paths and registry entries hold only on runs without such failures.
- The worker threads, the dispatcher and the lock around the registry (`ops.synchronized`) are concurrency. Each handled call is one atomic step.
- Decoding the call's payload is left out. The declared application and reason are always present in the modelled message. A payload that fails to decode is not modelled, and neither are the `system()`/`unknown()` defaults it would leave in place.
- The error's full bus name is defined outside the files modelled here. It is the value `NotPermitted`.
- The bus codec, object export (`add_object_for_path`) and the relay object that forwards an operation's events over the bus are foreign library code. A registry entry is the pair of path and backend operation.
- IdentifierSkeleton.Identifier.IdentifyUser: in the source the counter is process-wide and shared by all skeleton instances. Here it is a field of one skeleton. Uniqueness is proved per skeleton.
- The counter's increment is not shown: neither whether it returns the value before or after incrementing, nor its integer width. The path carries the value after the increment, as an unbounded natural number. Wrap-around is not modelled.
- Application ids are not checked for characters that bus object paths forbid. The path is built from them as plain strings.
- The HAL's C calls are opaque. The handle is a value, and a cancel is logged as one call on it.
- Creating the device from a configuration (`u_hardware_biometry_new`) and the descriptor's name, author and description strings are left out. They are not part of the request handling.
- Each factory call creates a fresh shared object in the source. Here operations are values, so two calls give equal values, and object identity is not modelled.
- Results are the default value of their capability. Their fields are defined outside the files modelled here.
- Operation.Observer.OnProgress, Operation.Observer.OnCanceled and Operation.Observer.OnFailed model the rest of the observer interface, each as one appended event. The Android operation never calls them, and the interface's own file is not part of this model. OnStarted and OnSucceeded, the two it calls, have rows above.
