/**
 * The Android HAL bridge device. Every capability it offers returns the same
 * kind of operation: one bound to the HAL handle the device was built from,
 * which on start reports Started and then success with a default result, and
 * whose cancel only forwards to the HAL.
 */
module Android {
  import opened Biometry
  import opened Operation

  /** The opaque handle of the HAL fingerprint instance. */
  datatype Handle = Handle(id: nat)

  /** A call made into the HAL's C interface. */
  datatype HalCall = HalCancel(handle: Handle)

  /** The HAL, seen through the calls made into it. */
  class Hal {
    var calls: seq<HalCall>

    constructor ()
      ensures calls == []
    {
      calls := [];
    }
  }

  /** The trace one start delivers: Started, then success with the default result. */
  function StartTrace(kind: Capability): (t: seq<Event>)
    ensures WellFormed(t)
    ensures Count(t, IsStart) == 1 && Count(t, IsTerminalEvent) == 1
    ensures forall i :: 0 <= i < |t| ==> !t[i].Progress? && !t[i].Failed? && !t[i].Canceled?
  {
    var t := [Started, Succeeded(Default(kind))];
    WellFormedCounts(t);
    t
  }

  /** An operation of the given capability, bound to a HAL handle. */
  datatype AndroidOperation = AndroidOperation(kind: Capability, handle: Handle) {

    /** Reports Started and then success with a default-constructed result. */
    method StartWithObserver(observer: Observer)
      modifies observer
      ensures observer.trace == old(observer.trace) + StartTrace(kind)
    {
      observer.OnStarted();
      var result := Default(kind);
      observer.OnSucceeded(result);
    }

    /** Forwards cancellation to the HAL; no observer is called back. */
    method Cancel(hal: Hal)
      modifies hal
      ensures hal.calls == old(hal.calls) + [HalCancel(handle)]
    {
      hal.calls := hal.calls + [HalCancel(handle)];
    }
  }

  /** The template store; its operations ignore application, user and template id. */
  datatype AndroidTemplateStore = AndroidTemplateStore(handle: Handle) {

    function Size(app: Application, user: User): (op: AndroidOperation)
      ensures op.kind == SizeQuery && op.handle == handle
    {
      AndroidOperation(SizeQuery, handle)
    }

    function List(app: Application, user: User): (op: AndroidOperation)
      ensures op.kind == Capability.List && op.handle == handle
    {
      AndroidOperation(Capability.List, handle)
    }

    function Enroll(app: Application, user: User): (op: AndroidOperation)
      ensures op.kind == Enrollment && op.handle == handle
    {
      AndroidOperation(Enrollment, handle)
    }

    function Remove(app: Application, user: User, id: nat): (op: AndroidOperation)
      ensures op.kind == Removal && op.handle == handle
    {
      AndroidOperation(Removal, handle)
    }

    function Clear(app: Application, user: User): (op: AndroidOperation)
      ensures op.kind == Clearance && op.handle == handle
    {
      AndroidOperation(Clearance, handle)
    }
  }

  /** The identifier; its operation ignores application and reason. */
  datatype AndroidIdentifier = AndroidIdentifier(handle: Handle) {

    function IdentifyUser(app: Application, reason: Reason): (op: AndroidOperation)
      ensures op.kind == Identification && op.handle == handle
    {
      AndroidOperation(Identification, handle)
    }
  }

  /** The verifier; its operation ignores application, user and reason. */
  datatype AndroidVerifier = AndroidVerifier(handle: Handle) {

    function VerifyUser(app: Application, user: User, reason: Reason): (op: AndroidOperation)
      ensures op.kind == Verification && op.handle == handle
    {
      AndroidOperation(Verification, handle)
    }
  }

  /** The device: its three capabilities, built from one handle. */
  datatype AndroidDevice = AndroidDevice(store: AndroidTemplateStore, ident: AndroidIdentifier, verif: AndroidVerifier) {

    /** Whether the three parts were built from one handle, as the constructor builds them. */
    predicate SharesHandle() { store.handle == ident.handle && ident.handle == verif.handle }

    /** The template store; in a device built from one handle, it shares that handle with the other parts. */
    function TemplateStore(): (s: AndroidTemplateStore)
      ensures SharesHandle() ==> s.handle == Identifier().handle && s.handle == Verifier().handle
    {
      store
    }

    /** The identifier; in a device built from one handle, it shares that handle with the other parts. */
    function Identifier(): (i: AndroidIdentifier)
      ensures SharesHandle() ==> i.handle == store.handle && i.handle == verif.handle
    {
      ident
    }

    /** The verifier; in a device built from one handle, it shares that handle with the other parts. */
    function Verifier(): (v: AndroidVerifier)
      ensures SharesHandle() ==> v.handle == store.handle && v.handle == ident.handle
    {
      verif
    }
  }

  /** The device built from a HAL handle. */
  function NewDevice(handle: Handle): (d: AndroidDevice)
    ensures d.SharesHandle()
    ensures d.TemplateStore().handle == handle
    ensures d.Identifier().handle == handle
    ensures d.Verifier().handle == handle
  {
    AndroidDevice(AndroidTemplateStore(handle), AndroidIdentifier(handle), AndroidVerifier(handle))
  }

  /**
   * Every operation a device hands out, whatever the arguments, is bound to
   * the handle the device was built from.
   */
  lemma DeviceOperationsShareHandle(handle: Handle, app: Application, user: User, reason: Reason, id: nat)
    ensures var d := NewDevice(handle);
      d.TemplateStore().Size(app, user).handle == handle &&
      d.TemplateStore().List(app, user).handle == handle &&
      d.TemplateStore().Enroll(app, user).handle == handle &&
      d.TemplateStore().Remove(app, user, id).handle == handle &&
      d.TemplateStore().Clear(app, user).handle == handle &&
      d.Identifier().IdentifyUser(app, reason).handle == handle &&
      d.Verifier().VerifyUser(app, user, reason).handle == handle
  {
  }

  /** The factories ignore their arguments: any two calls give the same operation. */
  lemma FactoriesIgnoreArguments(store: AndroidTemplateStore, ident: AndroidIdentifier, verif: AndroidVerifier,
                                 a1: Application, u1: User, r1: Reason, i1: nat,
                                 a2: Application, u2: User, r2: Reason, i2: nat)
    ensures store.Size(a1, u1) == store.Size(a2, u2)
    ensures store.List(a1, u1) == store.List(a2, u2)
    ensures store.Enroll(a1, u1) == store.Enroll(a2, u2)
    ensures store.Remove(a1, u1, i1) == store.Remove(a2, u2, i2)
    ensures store.Clear(a1, u1) == store.Clear(a2, u2)
    ensures ident.IdentifyUser(a1, r1) == ident.IdentifyUser(a2, r2)
    ensures verif.VerifyUser(a1, u1, r1) == verif.VerifyUser(a2, u2, r2)
  {
  }
}
