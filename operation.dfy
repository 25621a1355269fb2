/**
 * The Operation/Observer protocol. An operation reports its lifecycle to
 * the observer it was started with; the observer is modelled by the trace
 * of callbacks it has received.
 */
module Operation {

  /** The capabilities a device backend offers, each with its own result type. */
  datatype Capability = SizeQuery | List | Enrollment | Removal | Clearance | Identification | Verification

  /** A result of a capability; only its default-constructed value is modelled. */
  datatype Result = Default(kind: Capability)

  /** One observer callback. */
  datatype Event =
    | Started
    | Progress(percent: real)
    | Canceled(reason: string)
    | Failed(error: string)
    | Succeeded(result: Result)
  {
    predicate IsTerminal() { Canceled? || Failed? || Succeeded? }
  }

  /** The number of events of t that satisfy p. */
  function Count(t: seq<Event>, p: Event -> bool): (c: nat)
    ensures c <= |t|
  {
    if t == [] then 0 else (if p(t[0]) then 1 else 0) + Count(t[1..], p)
  }

  /** The protocol of one start: started first, then progress only, then one terminal event. */
  ghost predicate WellFormed(t: seq<Event>)
  {
    |t| >= 2 && t[0].Started? && t[|t| - 1].IsTerminal() &&
    forall i :: 0 < i < |t| - 1 ==> t[i].Progress?
  }

  lemma {:induction false} CountAppend(a: seq<Event>, b: seq<Event>, p: Event -> bool)
    ensures Count(a + b, p) == Count(a, p) + Count(b, p)
    decreases |a|
  {
    if a == [] {
      assert a + b == b;
    } else {
      assert (a + b)[1..] == a[1..] + b;
      CountAppend(a[1..], b, p);
    }
  }

  lemma {:induction false} CountNone(t: seq<Event>, p: Event -> bool)
    requires forall i :: 0 <= i < |t| ==> !p(t[i])
    ensures Count(t, p) == 0
    decreases |t|
  {
    if t != [] {
      CountNone(t[1..], p);
    }
  }

  lemma {:induction false} CountSome(t: seq<Event>, p: Event -> bool, i: nat)
    requires i < |t| && p(t[i])
    ensures Count(t, p) >= 1
    decreases i
  {
    if i > 0 {
      CountSome(t[1..], p, i - 1);
    }
  }

  /** Two distinct positions satisfying p make the count at least two. */
  lemma CountTwo(t: seq<Event>, p: Event -> bool, i: nat, j: nat)
    requires i < j < |t| && p(t[i]) && p(t[j])
    ensures Count(t, p) >= 2
  {
    assert t == t[..j] + t[j..];
    CountAppend(t[..j], t[j..], p);
    CountSome(t[..j], p, i);
    CountSome(t[j..], p, 0);
  }

  function IsStart(e: Event): bool { e.Started? }

  function IsTerminalEvent(e: Event): bool { e.IsTerminal() }

  /** A well-formed trace holds exactly one Started and exactly one terminal event. */
  lemma WellFormedCounts(t: seq<Event>)
    requires WellFormed(t)
    ensures Count(t, IsStart) == 1 && Count(t, IsTerminalEvent) == 1
  {
    var n := |t|;
    var middle := t[1..n - 1];
    assert t == [t[0]] + middle + [t[n - 1]];
    CountAppend([t[0]] + middle, [t[n - 1]], IsStart);
    CountAppend([t[0]], middle, IsStart);
    CountAppend([t[0]] + middle, [t[n - 1]], IsTerminalEvent);
    CountAppend([t[0]], middle, IsTerminalEvent);
    CountNone(middle, IsStart);
    CountNone(middle, IsTerminalEvent);
  }

  /** A trace that starts, ends terminally, and has one of each, is well formed. */
  lemma CountsWellFormed(t: seq<Event>)
    requires |t| > 0 && t[0].Started? && t[|t| - 1].IsTerminal()
    requires Count(t, IsStart) == 1 && Count(t, IsTerminalEvent) == 1
    ensures WellFormed(t)
  {
    forall i | 0 < i < |t| - 1
      ensures t[i].Progress?
    {
      if t[i].Started? {
        CountTwo(t, IsStart, 0, i);
      } else if t[i].IsTerminal() {
        CountTwo(t, IsTerminalEvent, i, |t| - 1);
      }
    }
  }

  /**
   * A trace is well formed exactly when it starts with Started, holds
   * exactly one Started and exactly one terminal event, and ends with it.
   */
  lemma WellFormedIff(t: seq<Event>)
    ensures WellFormed(t) <==>
      (|t| > 0 && t[0].Started? && t[|t| - 1].IsTerminal() &&
       Count(t, IsStart) == 1 && Count(t, IsTerminalEvent) == 1)
  {
    if WellFormed(t) {
      WellFormedCounts(t);
    }
    if |t| > 0 && t[0].Started? && t[|t| - 1].IsTerminal() &&
       Count(t, IsStart) == 1 && Count(t, IsTerminalEvent) == 1 {
      CountsWellFormed(t);
    }
  }

  /** An observer, seen through the callbacks delivered to it so far. */
  class Observer {
    var trace: seq<Event>

    constructor ()
      ensures trace == []
    {
      trace := [];
    }

    method OnStarted()
      modifies this
      ensures trace == old(trace) + [Started]
    {
      trace := trace + [Started];
    }

    method OnProgress(percent: real)
      modifies this
      ensures trace == old(trace) + [Progress(percent)]
    {
      trace := trace + [Progress(percent)];
    }

    method OnCanceled(reason: string)
      modifies this
      ensures trace == old(trace) + [Canceled(reason)]
    {
      trace := trace + [Canceled(reason)];
    }

    method OnFailed(error: string)
      modifies this
      ensures trace == old(trace) + [Failed(error)]
    {
      trace := trace + [Failed(error)];
    }

    method OnSucceeded(result: Result)
      modifies this
      ensures trace == old(trace) + [Succeeded(result)]
    {
      trace := trace + [Succeeded(result)];
    }
  }
}
