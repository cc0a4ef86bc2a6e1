/**
  The acknowledgment sub-machine of one action (`ActionStatus.AckStatus`):
  its current state and the time of its last state change.
 */
module Ack {

  datatype State = Ackable | AwaitsSuccessfulExecution | Acked | NotAckable

  datatype AckStatus = AckStatus(timestamp: nat, state: State)

  /** The signals the machine reacts to. */
  datatype Event =
    | Acknowledge(t: nat)
    | Check(met: bool, t: nat)
    | SuccessfulExecution(t: nat)

  /**
    The legal state changes, written as a graph independent of the transition
    functions below: ack, invalidate the ack, and restore after a good run.
    `NotAckable` has no edge in or out.
   */
  predicate Edge(from: State, to: State) {
    || (from == Ackable && to == Acked)
    || (from == Acked && to == AwaitsSuccessfulExecution)
    || (from == AwaitsSuccessfulExecution && to == Ackable)
  }

  /** An operator acknowledges: effective only while the action is ackable. */
  function OnAck(a: AckStatus, t: nat): (r: AckStatus)
    ensures a.state == Ackable ==> r.state == Acked && r.timestamp == t
    ensures a.state != Ackable ==> r == a
  {
    if a.state == Ackable then AckStatus(t, Acked) else a
  }

  /**
    The owning watch reports a condition check. An ack goes stale when the
    condition is no longer met; a met condition never touches the state.
   */
  function OnCheck(a: AckStatus, met: bool, t: nat): (r: AckStatus)
    ensures !met && a.state == Acked ==> r.state == AwaitsSuccessfulExecution && r.timestamp == t
    ensures met || a.state != Acked ==> r == a
  {
    if !met && a.state == Acked then AckStatus(t, AwaitsSuccessfulExecution) else a
  }

  /** A successful execution lifts the hold placed by a stale ack. */
  function OnSuccessfulExecution(a: AckStatus, t: nat): (r: AckStatus)
    ensures a.state == AwaitsSuccessfulExecution ==> r.state == Ackable && r.timestamp == t
    ensures a.state != AwaitsSuccessfulExecution ==> r == a
  {
    if a.state == AwaitsSuccessfulExecution then AckStatus(t, Ackable) else a
  }

  /** One step of the machine, dispatching on the event. */
  function Next(a: AckStatus, e: Event): AckStatus {
    match e
    case Acknowledge(t) => OnAck(a, t)
    case Check(met, t) => OnCheck(a, met, t)
    case SuccessfulExecution(t) => OnSuccessfulExecution(a, t)
  }

  /** Every step either leaves the status alone or follows one edge, stamped with the event's time. */
  lemma StepFollowsEdge(a: AckStatus, e: Event)
    ensures Next(a, e) == a || (Edge(a.state, Next(a, e).state) && Next(a, e).timestamp == e.t)
  {
  }

  /** Conversely, every edge of the graph is taken by some event. */
  lemma EdgeIsTaken(a: AckStatus, to: State, t: nat)
    requires Edge(a.state, to)
    ensures exists e: Event :: e.t == t && Next(a, e) == AckStatus(t, to)
  {
    match a.state
    case Ackable => assert Next(a, Acknowledge(t)) == AckStatus(t, to);
    case Acked => assert Next(a, Check(false, t)) == AckStatus(t, to);
    case AwaitsSuccessfulExecution => assert Next(a, SuccessfulExecution(t)) == AckStatus(t, to);
  }

  /** Acknowledging twice is the same as acknowledging once. */
  lemma OnAckIdempotent(a: AckStatus, t: nat, t': nat)
    ensures OnAck(OnAck(a, t), t') == OnAck(a, t)
  {
  }

  /** Running a sequence of events from left to right. */
  function Run(a: AckStatus, es: seq<Event>): AckStatus
    decreases |es|
  {
    if |es| == 0 then a else Run(Next(a, es[0]), es[1..])
  }

  /** `NotAckable` is fixed for the life of the status: no sequence of events leaves or enters it. */
  lemma {:induction false} NotAckableIsFixed(a: AckStatus, es: seq<Event>)
    ensures Run(a, es).state == NotAckable <==> a.state == NotAckable
    decreases |es|
  {
    if |es| > 0 {
      NotAckableIsFixed(Next(a, es[0]), es[1..]);
    }
  }

  /** Events stamped no earlier than the current status. */
  predicate NotBefore(es: seq<Event>, t: nat) {
    forall i :: 0 <= i < |es| ==> t <= es[i].t
  }

  /** Events in non-decreasing time order. */
  predicate Ordered(es: seq<Event>) {
    forall i, j :: 0 <= i < j < |es| ==> es[i].t <= es[j].t
  }

  /**
    When the caller delivers events in time order and none predates the
    status, the timestamp of the status never moves backwards, and it ends
    no later than the last event.
   */
  lemma {:induction false} TimestampMonotone(a: AckStatus, es: seq<Event>)
    requires Ordered(es) && NotBefore(es, a.timestamp)
    ensures a.timestamp <= Run(a, es).timestamp
    ensures |es| > 0 ==> Run(a, es).timestamp <= es[|es| - 1].t
    decreases |es|
  {
    if |es| > 0 {
      var b := Next(a, es[0]);
      assert b.timestamp == a.timestamp || b.timestamp == es[0].t;
      assert NotBefore(es[1..], b.timestamp) by {
        forall i | 0 <= i < |es[1..]|
          ensures b.timestamp <= es[1..][i].t
        {
          assert es[1..][i] == es[i + 1];
        }
      }
      assert Ordered(es[1..]) by {
        forall i, j | 0 <= i < j < |es[1..]|
          ensures es[1..][i].t <= es[1..][j].t
        {
          assert es[1..][i] == es[i + 1] && es[1..][j] == es[j + 1];
        }
      }
      TimestampMonotone(b, es[1..]);
      if |es| == 1 {
        assert Run(b, es[1..]) == b;
      } else {
        assert es[1..][|es[1..]| - 1] == es[|es| - 1];
      }
    }
  }
}
