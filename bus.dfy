/**
 * The message bus as abstract values: an incoming IdentifyUser method call,
 * the replies the skeleton sends, and the object paths it publishes.
 */
module Bus {
  import opened Biometry
  import opened Numerals

  type ObjectPath = string

  /** The named bus errors the skeleton replies with. */
  datatype ErrorName = NotPermitted

  /**
   * An incoming IdentifyUser call: its serial (what a reply answers) and the
   * declared target application and reason read from its payload.
   */
  datatype Message = Message(serial: nat, app: Application, reason: Reason)

  /** A reply sent onto the bus in answer to the call with serial replyTo. */
  datatype Reply =
    | Error(replyTo: nat, name: ErrorName, detail: string)
    | MethodReturn(replyTo: nat, path: ObjectPath)

  /**
   * The number a path's last segment (what follows its last '/') denotes
   * in decimal.
   */
  function LastSegmentValue(p: string): nat
  {
    if p == [] || p[|p| - 1] == '/' then 0
    else LastSegmentValue(p[..|p| - 1]) * 10 + DigitValue(p[|p| - 1])
  }

  /** A slash-free segment joined after a '/' is what the last segment denotes. */
  lemma {:induction false} LastSegmentValueOfJoin(prefix: string, t: string)
    requires '/' !in t
    ensures LastSegmentValue(prefix + "/" + t) == DigitsValue(t)
    decreases |t|
  {
    if t != [] {
      var p := prefix + "/" + t;
      assert p[..|p| - 1] == prefix + "/" + t[..|t| - 1];
      LastSegmentValueOfJoin(prefix, t[..|t| - 1]);
    }
  }

  /** The object paths carried by the method-return replies of an outbox, in order. */
  function Returned(out: seq<Reply>): (r: seq<ObjectPath>)
    ensures |r| <= |out|
  {
    if out == [] then []
    else Returned(out[..|out| - 1]) + (if out[|out| - 1].MethodReturn? then [out[|out| - 1].path] else [])
  }

  lemma ReturnedAppend(out: seq<Reply>, reply: Reply)
    ensures Returned(out + [reply]) == Returned(out) + (if reply.MethodReturn? then [reply.path] else [])
  {
    assert (out + [reply])[..|out|] == out;
  }
}
