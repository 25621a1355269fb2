/**
 * The bus-facing Identifier skeleton. Each IdentifyUser call, once its
 * credentials are resolved, is handled as one atomic step: reject with
 * NotPermitted, or forward (app, reason) to the backend identifier, publish
 * the returned operation under a fresh object path, and reply with the path.
 *
 * IdentifyUserStep is the step on abstract state; the class Identifier
 * performs it in place and is proved to agree with it.
 */
module IdentifierSkeleton {
  import opened Wrappers
  import opened Biometry
  import opened Numerals
  import opened Bus
  import opened RequestVerifier

  /** What the skeleton puts between its own object path and the caller's application. */
  const OperationInfix: string := "/operation/identification/"

  /** The arguments the backend identifier was called with. */
  datatype Request = Request(app: Application, reason: Reason)

  /** A published operation: the bus object at path relaying the backend's op. */
  datatype Relay<Op> = Relay(path: ObjectPath, op: Op)

  /**
   * The skeleton's state: the path counter, the registry of published
   * operations, the replies sent so far, and the log of backend calls.
   */
  datatype State<Op> = State(counter: nat, ops: map<ObjectPath, Relay<Op>>, outbox: seq<Reply>, calls: seq<Request>)

  function Initial<Op>(): State<Op> { State(0, map[], [], []) }

  /** The authorisation-error reply to msg. */
  function NotPermittedInReplyTo(msg: Message): (r: Reply)
    ensures r.Error? && r.replyTo == msg.serial
    ensures r.name == NotPermitted && r.detail == ""
  {
    Error(msg.serial, NotPermitted, "")
  }

  /**
   * The object path of an operation published for a caller: the skeleton's
   * path, the infix, the caller's application, its user id and, as its last
   * segment, the counter value n.
   */
  function OperationPath(objectPath: string, creds: Credentials, n: nat): (p: ObjectPath)
    ensures |objectPath + OperationInfix| <= |p|
    ensures p[..|objectPath + OperationInfix|] == objectPath + OperationInfix
    ensures LastSegmentValue(p) == n
  {
    var head := objectPath + OperationInfix + creds.app.AsString() + "/" + DecimalString(creds.user.id);
    LastSegmentValueOfJoin(head, DecimalString(n));
    DigitsValueOfDecimal(n);
    head + "/" + DecimalString(n)
  }

  /**
   * Paths built by one skeleton for different counter values differ, whoever
   * the callers are, even when an application id contains '/'.
   */
  lemma OperationPathDeterminesCounter(objectPath: string, c1: Credentials, c2: Credentials, m: nat, n: nat)
    ensures OperationPath(objectPath, c1, m) == OperationPath(objectPath, c2, n) ==> m == n
  {
  }

  /**
   * A rejected call: one error reply answering it is sent, no path is
   * returned, and nothing else changes.
   */
  function Reject<Op>(s: State<Op>, msg: Message): (r: State<Op>)
    ensures r.counter == s.counter && r.ops == s.ops && r.calls == s.calls
    ensures |r.outbox| == |s.outbox| + 1 && r.outbox[..|s.outbox|] == s.outbox
    ensures r.outbox[|s.outbox|].Error? && r.outbox[|s.outbox|].replyTo == msg.serial
    ensures Returned(r.outbox) == Returned(s.outbox)
  {
    var out := s.outbox + [NotPermittedInReplyTo(msg)];
    ReturnedAppend(s.outbox, NotPermittedInReplyTo(msg));
    assert out[..|s.outbox|] == s.outbox;
    s.(outbox := out)
  }

  /**
   * An accepted call: the backend is called with the declared app and reason,
   * the counter advances, the returned op is registered under the new path,
   * and the path is returned.
   */
  function Publish<Op>(objectPath: string, impl: (Application, Reason) -> Op,
                       s: State<Op>, msg: Message, creds: Credentials): (r: State<Op>)
    ensures var p := OperationPath(objectPath, creds, s.counter + 1);
      r.counter == s.counter + 1 &&
      r.calls == s.calls + [Request(msg.app, msg.reason)] &&
      r.ops.Keys == s.ops.Keys + {p} && r.ops[p] == Relay(p, impl(msg.app, msg.reason)) &&
      |r.outbox| == |s.outbox| + 1 && r.outbox[..|s.outbox|] == s.outbox &&
      r.outbox[|s.outbox|].MethodReturn? && r.outbox[|s.outbox|].replyTo == msg.serial &&
      Returned(r.outbox) == Returned(s.outbox) + [p]
  {
    var n := s.counter + 1;
    var p := OperationPath(objectPath, creds, n);
    var out := s.outbox + [MethodReturn(msg.serial, p)];
    ReturnedAppend(s.outbox, MethodReturn(msg.serial, p));
    assert out[..|s.outbox|] == s.outbox;
    State(n, s.ops[p := Relay(p, impl(msg.app, msg.reason))], out,
          s.calls + [Request(msg.app, msg.reason)])
  }

  /**
   * One IdentifyUser call, with resolved the outcome of credential
   * resolution. Every call gets exactly one reply, answering it; it is a
   * method return exactly when the credentials resolved and the verifier
   * accepted, and exactly then the counter advances, by one.
   */
  function IdentifyUserStep<Op>(objectPath: string, impl: (Application, Reason) -> Op,
                                s: State<Op>, msg: Message, resolved: Option<Credentials>): (r: State<Op>)
    ensures |r.outbox| == |s.outbox| + 1 && r.outbox[..|s.outbox|] == s.outbox
    ensures r.outbox[|s.outbox|].replyTo == msg.serial
    ensures r.outbox[|s.outbox|].MethodReturn? <==>
      (resolved.Some? && VerifyIdentifyUserRequest(msg.app, resolved.value))
    ensures r.counter == s.counter + (if r.outbox[|s.outbox|].MethodReturn? then 1 else 0)
  {
    match resolved
    case None => Reject(s, msg)
    case Some(creds) =>
      if !VerifyIdentifyUserRequest(msg.app, creds) then Reject(s, msg)
      else Publish(objectPath, impl, s, msg, creds)
  }

  /**
   * The invariant of the skeleton's state: the k-th path returned ends in the
   * counter value k + 1, is registered, and relays the op the k-th backend
   * call produced; every registered path is the returned path its counter
   * value names; the counter counts the returned paths, the backend calls
   * and the registry entries.
   */
  ghost predicate Inv<Op>(impl: (Application, Reason) -> Op, s: State<Op>)
  {
    |Returned(s.outbox)| == s.counter && |s.calls| == s.counter && |s.ops| == s.counter &&
    ReturnedAreRegistered(impl, s) && RegisteredAreReturned(s)
  }

  /**
   * The k-th path returned ends in k + 1, is registered, and relays the op
   * the k-th backend call produced.
   */
  ghost predicate ReturnedAreRegistered<Op>(impl: (Application, Reason) -> Op, s: State<Op>)
    requires |s.calls| >= |Returned(s.outbox)|
  {
    var r := Returned(s.outbox);
    forall k :: IsReturnedIndex(s, k) ==>
      LastSegmentValue(r[k]) == k + 1 && r[k] in s.ops &&
      s.ops[r[k]] == Relay(r[k], impl(s.calls[k].app, s.calls[k].reason))
  }

  /** Every registered path is the returned path its last segment names. */
  ghost predicate RegisteredAreReturned<Op>(s: State<Op>)
  {
    var r := Returned(s.outbox);
    forall p :: IsRegistered(s, p) ==> 1 <= LastSegmentValue(p) <= |r| && r[LastSegmentValue(p) - 1] == p
  }

  /**
   * Whether p is registered; named so that the invariant's statement about
   * registered paths is used only where a proof asks for it.
   */
  ghost predicate IsRegistered<Op>(s: State<Op>, p: ObjectPath) { p in s.ops }

  /** Whether k indexes the returned paths; named for the same reason. */
  ghost predicate IsReturnedIndex<Op>(s: State<Op>, k: int) { 0 <= k < |Returned(s.outbox)| }

  lemma InitialInv<Op>(impl: (Application, Reason) -> Op)
    ensures Inv(impl, Initial())
  {
  }

  /** Absent credentials: one NotPermitted reply, nothing else changes. */
  lemma AbsentCredentialsRejected<Op>(objectPath: string, impl: (Application, Reason) -> Op, s: State<Op>, msg: Message)
    ensures var s' := IdentifyUserStep(objectPath, impl, s, msg, None);
      s'.outbox == s.outbox + [Error(msg.serial, NotPermitted, "")] &&
      s'.counter == s.counter && s'.ops == s.ops && s'.calls == s.calls
  {
  }

  /** A refused request: one NotPermitted reply, no backend call, no path, nothing else changes. */
  lemma RefusedRequestRejected<Op>(objectPath: string, impl: (Application, Reason) -> Op,
                                   s: State<Op>, msg: Message, creds: Credentials)
    requires !VerifyIdentifyUserRequest(msg.app, creds)
    ensures var s' := IdentifyUserStep(objectPath, impl, s, msg, Some(creds));
      s'.outbox == s.outbox + [Error(msg.serial, NotPermitted, "")] &&
      s'.counter == s.counter && s'.ops == s.ops && s'.calls == s.calls
  {
  }

  /**
   * An accepted request: the backend gets the declared (app, reason), the
   * counter advances once, the op it returned is registered under the path
   * built from the credentials and the new counter value, and the only reply
   * is a method return carrying that path.
   */
  lemma AcceptedRequestPublished<Op>(objectPath: string, impl: (Application, Reason) -> Op,
                                     s: State<Op>, msg: Message, creds: Credentials)
    requires VerifyIdentifyUserRequest(msg.app, creds)
    ensures var s' := IdentifyUserStep(objectPath, impl, s, msg, Some(creds));
      var p := OperationPath(objectPath, creds, s.counter + 1);
      p == objectPath + "/operation/identification/" + creds.app.AsString() + "/" +
           DecimalString(creds.user.id) + "/" + DecimalString(s.counter + 1) &&
      s'.counter == s.counter + 1 &&
      s'.calls == s.calls + [Request(msg.app, msg.reason)] &&
      s'.outbox == s.outbox + [MethodReturn(msg.serial, p)] &&
      s'.ops == s.ops[p := Relay(p, impl(msg.app, msg.reason))]
  {
  }

  /** A path ending in the next counter value is not yet registered. */
  lemma NextPathFresh<Op>(impl: (Application, Reason) -> Op, s: State<Op>, p: ObjectPath)
    requires Inv(impl, s)
    requires LastSegmentValue(p) == s.counter + 1
    ensures p !in s.ops
  {
    assert IsRegistered(s, p) ==> LastSegmentValue(p) <= s.counter;
  }

  /**
   * Publishing never overwrites: the new path is not yet registered, and
   * every earlier entry is kept as it was.
   */
  lemma PublishNeverOverwrites<Op>(objectPath: string, impl: (Application, Reason) -> Op,
                                   s: State<Op>, msg: Message, creds: Credentials)
    requires Inv(impl, s)
    requires VerifyIdentifyUserRequest(msg.app, creds)
    ensures var p := OperationPath(objectPath, creds, s.counter + 1);
      var s' := IdentifyUserStep(objectPath, impl, s, msg, Some(creds));
      p !in s.ops && s'.ops.Keys == s.ops.Keys + {p} &&
      forall q :: q in s.ops ==> s'.ops[q] == s.ops[q]
  {
    NextPathFresh(impl, s, OperationPath(objectPath, creds, s.counter + 1));
  }

  /** A path ending in the next counter value, registered and returned, is the last returned path. */
  lemma RegisterKeepsReturnedRegistered<Op>(impl: (Application, Reason) -> Op, s: State<Op>,
                                            p: ObjectPath, serial: nat, req: Request)
    requires Inv(impl, s)
    requires LastSegmentValue(p) == s.counter + 1
    ensures ReturnedAreRegistered(impl, State(s.counter + 1, s.ops[p := Relay(p, impl(req.app, req.reason))],
                                              s.outbox + [MethodReturn(serial, p)], s.calls + [req]))
  {
    NextPathFresh(impl, s, p);
    ReturnedAppend(s.outbox, MethodReturn(serial, p));
    var s' := State(s.counter + 1, s.ops[p := Relay(p, impl(req.app, req.reason))],
                    s.outbox + [MethodReturn(serial, p)], s.calls + [req]);
    var r, r' := Returned(s.outbox), Returned(s'.outbox);
    forall k | IsReturnedIndex(s', k)
      ensures LastSegmentValue(r'[k]) == k + 1 && r'[k] in s'.ops &&
              s'.ops[r'[k]] == Relay(r'[k], impl(s'.calls[k].app, s'.calls[k].reason))
    {
      if k < |r| {
        assert IsReturnedIndex(s, k);
        assert r'[k] == r[k] && r[k] in s.ops && r[k] != p;
        assert s'.calls[k] == s.calls[k];
      } else {
        assert k == s.counter && r'[k] == p && s'.calls[k] == req;
      }
    }
  }

  /** Every path registered after the insert is a returned path, the new one last. */
  lemma RegisterKeepsRegisteredReturned<Op>(impl: (Application, Reason) -> Op, s: State<Op>,
                                            p: ObjectPath, serial: nat, req: Request)
    requires Inv(impl, s)
    requires LastSegmentValue(p) == s.counter + 1
    ensures RegisteredAreReturned(State(s.counter + 1, s.ops[p := Relay(p, impl(req.app, req.reason))],
                                        s.outbox + [MethodReturn(serial, p)], s.calls + [req]))
  {
    ReturnedAppend(s.outbox, MethodReturn(serial, p));
    var s' := State(s.counter + 1, s.ops[p := Relay(p, impl(req.app, req.reason))],
                    s.outbox + [MethodReturn(serial, p)], s.calls + [req]);
    var r, r' := Returned(s.outbox), Returned(s'.outbox);
    forall q | IsRegistered(s', q)
      ensures 1 <= LastSegmentValue(q) <= |r'| && r'[LastSegmentValue(q) - 1] == q
    {
      if q != p {
        assert IsRegistered(s, q);
      }
    }
  }

  /** Registering an op under a path ending in the next counter value, and returning it, keeps the invariant. */
  lemma RegisterPreservesInv<Op>(impl: (Application, Reason) -> Op, s: State<Op>,
                                 p: ObjectPath, serial: nat, req: Request)
    requires Inv(impl, s)
    requires LastSegmentValue(p) == s.counter + 1
    ensures Inv(impl, State(s.counter + 1, s.ops[p := Relay(p, impl(req.app, req.reason))],
                            s.outbox + [MethodReturn(serial, p)], s.calls + [req]))
  {
    NextPathFresh(impl, s, p);
    ReturnedAppend(s.outbox, MethodReturn(serial, p));
    RegisterKeepsReturnedRegistered(impl, s, p, serial, req);
    RegisterKeepsRegisteredReturned(impl, s, p, serial, req);
  }

  /** An accepted call keeps the invariant. */
  lemma PublishPreservesInv<Op>(objectPath: string, impl: (Application, Reason) -> Op,
                                s: State<Op>, msg: Message, creds: Credentials)
    requires Inv(impl, s)
    ensures Inv(impl, Publish(objectPath, impl, s, msg, creds))
  {
    RegisterPreservesInv(impl, s, OperationPath(objectPath, creds, s.counter + 1),
                         msg.serial, Request(msg.app, msg.reason));
  }

  /** A rejected call keeps the invariant. */
  lemma RejectPreservesInv<Op>(impl: (Application, Reason) -> Op, s: State<Op>, msg: Message)
    requires Inv(impl, s)
    ensures Inv(impl, Reject(s, msg))
  {
    ReturnedAppend(s.outbox, NotPermittedInReplyTo(msg));
  }

  /** Every step keeps the invariant. */
  lemma StepPreservesInv<Op>(objectPath: string, impl: (Application, Reason) -> Op,
                             s: State<Op>, msg: Message, resolved: Option<Credentials>)
    requires Inv(impl, s)
    ensures Inv(impl, IdentifyUserStep(objectPath, impl, s, msg, resolved))
  {
    if resolved.Some? && VerifyIdentifyUserRequest(msg.app, resolved.value) {
      PublishPreservesInv(objectPath, impl, s, msg, resolved.value);
    } else {
      RejectPreservesInv(impl, s, msg);
    }
  }

  /** The paths a state satisfying the invariant has returned are pairwise distinct. */
  lemma ReturnedPathsDistinct<Op>(impl: (Application, Reason) -> Op, s: State<Op>)
    requires Inv(impl, s)
    ensures var r := Returned(s.outbox);
      forall i, j :: 0 <= i < j < |r| ==> r[i] != r[j]
  {
    var r := Returned(s.outbox);
    forall i, j | 0 <= i < j < |r|
      ensures r[i] != r[j]
    {
      assert IsReturnedIndex(s, i) && IsReturnedIndex(s, j);
    }
  }

  /** Two accepted calls in a row, even from the same caller, get distinct paths. */
  lemma ConsecutivePathsDistinct<Op>(objectPath: string, impl: (Application, Reason) -> Op,
                                     s: State<Op>, m1: Message, m2: Message, creds: Credentials)
    requires VerifyIdentifyUserRequest(m1.app, creds) && VerifyIdentifyUserRequest(m2.app, creds)
    ensures var s1 := IdentifyUserStep(objectPath, impl, s, m1, Some(creds));
      var s2 := IdentifyUserStep(objectPath, impl, s1, m2, Some(creds));
      s2.outbox[|s2.outbox| - 1].path != s1.outbox[|s1.outbox| - 1].path
  {
    var s1 := IdentifyUserStep(objectPath, impl, s, m1, Some(creds));
    AcceptedRequestPublished(objectPath, impl, s, m1, creds);
    AcceptedRequestPublished(objectPath, impl, s1, m2, creds);
    OperationPathDeterminesCounter(objectPath, creds, creds, s.counter + 1, s.counter + 2);
  }

  /** A call as the skeleton receives it, with the outcome of its credential resolution. */
  datatype Incoming = Incoming(msg: Message, resolved: Option<Credentials>)

  /** The skeleton's state after handling the calls in order. */
  function Run<Op>(objectPath: string, impl: (Application, Reason) -> Op,
                   s: State<Op>, incoming: seq<Incoming>): State<Op>
    decreases |incoming|
  {
    if incoming == [] then s
    else Run(objectPath, impl, IdentifyUserStep(objectPath, impl, s, incoming[0].msg, incoming[0].resolved), incoming[1..])
  }

  lemma {:induction false} RunPreservesInv<Op>(objectPath: string, impl: (Application, Reason) -> Op,
                                               s: State<Op>, incoming: seq<Incoming>)
    requires Inv(impl, s)
    ensures Inv(impl, Run(objectPath, impl, s, incoming))
    decreases |incoming|
  {
    if incoming != [] {
      StepPreservesInv(objectPath, impl, s, incoming[0].msg, incoming[0].resolved);
      RunPreservesInv(objectPath, impl, IdentifyUserStep(objectPath, impl, s, incoming[0].msg, incoming[0].resolved), incoming[1..]);
    }
  }

  /** In a state satisfying the invariant the registry holds exactly the returned paths. */
  lemma RegistryIsReturned<Op>(impl: (Application, Reason) -> Op, s: State<Op>)
    requires Inv(impl, s)
    ensures var r := Returned(s.outbox);
      |s.ops| == |r| && forall p :: p in s.ops <==> p in r
  {
    var r := Returned(s.outbox);
    forall p | p in s.ops
      ensures p in r
    {
      assert IsRegistered(s, p);
    }
    forall p | p in r
      ensures p in s.ops
    {
      var k :| 0 <= k < |r| && r[k] == p;
      assert IsReturnedIndex(s, k);
    }
  }

  /**
   * Over the daemon's lifetime every returned path is unique, and the
   * registry holds exactly one entry per returned path.
   */
  lemma LifetimePathsUnique<Op>(objectPath: string, impl: (Application, Reason) -> Op, incoming: seq<Incoming>)
    ensures var s := Run(objectPath, impl, Initial(), incoming);
      var r := Returned(s.outbox);
      (forall i, j :: 0 <= i < j < |r| ==> r[i] != r[j]) &&
      |s.ops| == |r| && (forall p :: p in s.ops <==> p in r)
  {
    InitialInv(impl);
    RunPreservesInv(objectPath, impl, Initial(), incoming);
    var s := Run(objectPath, impl, Initial(), incoming);
    ReturnedPathsDistinct(impl, s);
    RegistryIsReturned(impl, s);
  }

  /**
   * When credential resolution always fails, every call gets a NotPermitted
   * reply, in order, and the counter, registry and backend log never change.
   */
  lemma {:induction false} AbsentCredentialsNeverPublish<Op>(objectPath: string, impl: (Application, Reason) -> Op,
                                                             s: State<Op>, incoming: seq<Incoming>)
    requires forall i :: 0 <= i < |incoming| ==> incoming[i].resolved.None?
    ensures var s' := Run(objectPath, impl, s, incoming);
      s'.counter == s.counter && s'.ops == s.ops && s'.calls == s.calls &&
      |s'.outbox| == |s.outbox| + |incoming| && s'.outbox[..|s.outbox|] == s.outbox &&
      forall i :: 0 <= i < |incoming| ==> s'.outbox[|s.outbox| + i] == NotPermittedInReplyTo(incoming[i].msg)
    decreases |incoming|
  {
    if incoming != [] {
      var s1 := IdentifyUserStep(objectPath, impl, s, incoming[0].msg, incoming[0].resolved);
      AbsentCredentialsNeverPublish(objectPath, impl, s1, incoming[1..]);
      var s' := Run(objectPath, impl, s, incoming);
      assert s'.outbox[..|s1.outbox|] == s1.outbox;
      assert s'.outbox[..|s.outbox|] == s1.outbox[..|s.outbox|];
      forall i | 0 <= i < |incoming|
        ensures s'.outbox[|s.outbox| + i] == NotPermittedInReplyTo(incoming[i].msg)
      {
        if i > 0 {
          assert incoming[i] == incoming[1..][i - 1];
        }
      }
    }
  }

  /**
   * The skeleton object. Its fields are the state above; IdentifyUser
   * updates them in place in the order the handler does.
   */
  class Identifier<Op> {
    const objectPath: string
    const impl: (Application, Reason) -> Op
    var counter: nat
    var ops: map<ObjectPath, Relay<Op>>
    var outbox: seq<Reply>
    var calls: seq<Request>

    function Snapshot(): State<Op>
      reads this
    {
      State(counter, ops, outbox, calls)
    }

    ghost predicate Valid()
      reads this
    {
      Inv(impl, Snapshot())
    }

    constructor (objectPath: string, impl: (Application, Reason) -> Op)
      ensures Valid()
      ensures this.objectPath == objectPath && this.impl == impl
      ensures Snapshot() == Initial()
    {
      this.objectPath := objectPath;
      this.impl := impl;
      counter, ops, outbox, calls := 0, map[], [], [];
    }

    /** Forwards to the backend identifier and logs the call. */
    method ForwardIdentifyUser(app: Application, reason: Reason) returns (op: Op)
      modifies this`calls
      ensures op == impl(app, reason)
      ensures calls == old(calls) + [Request(app, reason)]
    {
      op := impl(app, reason);
      calls := calls + [Request(app, reason)];
    }

    /** Handles one IdentifyUser call whose credential resolution produced resolved. */
    method IdentifyUser(msg: Message, resolved: Option<Credentials>)
      requires Valid()
      modifies this
      ensures Valid()
      ensures Snapshot() == IdentifyUserStep(objectPath, impl, old(Snapshot()), msg, resolved)
    {
      ghost var before := Snapshot();
      if resolved.None? {
        RejectPreservesInv(impl, before, msg);
        outbox := outbox + [NotPermittedInReplyTo(msg)];
        assert Snapshot() == Reject(before, msg);
        return;
      }
      var credentials := resolved.value;
      var app, reason := msg.app, msg.reason;
      if !VerifyIdentifyUserRequest(app, credentials) {
        RejectPreservesInv(impl, before, msg);
        outbox := outbox + [NotPermittedInReplyTo(msg)];
        assert Snapshot() == Reject(before, msg);
        return;
      }
      PublishPreservesInv(objectPath, impl, before, msg, credentials);
      var op := ForwardIdentifyUser(app, reason);
      counter := counter + 1;
      var opPath := OperationPath(objectPath, credentials, counter);
      ops := ops[opPath := Relay(opPath, op)];
      outbox := outbox + [MethodReturn(msg.serial, opPath)];
      assert Snapshot() == Publish(objectPath, impl, before, msg, credentials);
    }
  }
}
