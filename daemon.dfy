/**
 * The Identifier skeleton serving the Android device's identifier: every
 * operation the skeleton publishes is an identification bound to the HAL
 * handle the device was built from.
 */
module Daemon {
  import opened Biometry
  import opened Bus
  import opened Android
  import opened Operation
  import opened IdentifierSkeleton

  /** The backend call of a skeleton serving device d. */
  function Backend(d: AndroidDevice): (Application, Reason) -> AndroidOperation
  {
    (app: Application, reason: Reason) => d.Identifier().IdentifyUser(app, reason)
  }

  /** In any reachable state, every published operation is an identification on the device's handle. */
  lemma PublishedOperationsOnDeviceHandle(objectPath: string, handle: Handle, incoming: seq<Incoming>)
    ensures var s := Run(objectPath, Backend(NewDevice(handle)), Initial(), incoming);
      forall p :: p in s.ops ==> s.ops[p] == Relay(p, AndroidOperation(Identification, handle))
  {
    var impl := Backend(NewDevice(handle));
    InitialInv(impl);
    RunPreservesInv(objectPath, impl, Initial(), incoming);
    var s := Run(objectPath, impl, Initial(), incoming);
    forall p | p in s.ops
      ensures s.ops[p] == Relay(p, AndroidOperation(Identification, handle))
    {
      assert IsRegistered(s, p);
      var k := LastSegmentValue(p) - 1;
      assert IsReturnedIndex(s, k);
    }
  }
}
