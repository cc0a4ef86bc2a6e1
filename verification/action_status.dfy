/**
  The status of one action of a watch (`ActionStatus`): its acknowledgment
  sub-machine and the outcome of its last and last successful execution.
 */
module Actions {
  import opened Wrappers
  import opened Ack

  /** One execution of the action; of its result only the success bit matters here. */
  datatype Execution = Execution(timestamp: nat, successful: bool)

  datatype ActionStatus = ActionStatus(
    ack: AckStatus,
    lastExecution: Option<Execution>,
    lastSuccessfulExecution: Option<Execution>)

  /**
    The bookkeeping an action status keeps: the last successful execution is
    successful, there is none before a first execution, and when the last
    execution succeeded it is also the last successful one.
   */
  predicate Valid(a: ActionStatus) {
    && (a.lastSuccessfulExecution.Some? ==> a.lastSuccessfulExecution.value.successful)
    && (a.lastExecution.None? ==> a.lastSuccessfulExecution.None?)
    && (a.lastExecution.Some? && a.lastExecution.value.successful ==>
          a.lastSuccessfulExecution == a.lastExecution)
  }

  /** A fresh status at time `t`; `ackable` says whether the action type supports acknowledgment. */
  function Create(t: nat, ackable: bool): (r: ActionStatus)
    ensures Valid(r)
    ensures r.ack.timestamp == t
    ensures r.ack.state == Ackable <==> ackable
    ensures r.ack.state == NotAckable <==> !ackable
    ensures r.lastExecution.None? && r.lastSuccessfulExecution.None?
  {
    ActionStatus(AckStatus(t, if ackable then Ackable else NotAckable), None, None)
  }

  /** The execution engine reports an outcome at time `t`. */
  function Update(a: ActionStatus, t: nat, success: bool): (r: ActionStatus)
    ensures Valid(a) ==> Valid(r)
    ensures r.lastExecution == Some(Execution(t, success))
    ensures success ==> r.lastSuccessfulExecution == r.lastExecution
    ensures !success ==> r.lastSuccessfulExecution == a.lastSuccessfulExecution && r.ack == a.ack
    ensures success && a.ack.state == AwaitsSuccessfulExecution ==>
              r.ack == AckStatus(t, Ackable)
    ensures a.ack.state != AwaitsSuccessfulExecution ==> r.ack == a.ack
  {
    var e := Execution(t, success);
    if success then
      ActionStatus(OnSuccessfulExecution(a.ack, t), Some(e), Some(e))
    else
      a.(lastExecution := Some(e))
  }

  /** An operator acknowledges the action at time `t`; executions are untouched. */
  function OnAck(a: ActionStatus, t: nat): (r: ActionStatus)
    ensures a.ack.state == Ackable ==> r.ack == AckStatus(t, Acked)
    ensures a.ack.state != Ackable ==> r == a
    ensures r.lastExecution == a.lastExecution
    ensures r.lastSuccessfulExecution == a.lastSuccessfulExecution
  {
    a.(ack := Ack.OnAck(a.ack, t))
  }

  /** The owning watch forwards a condition check; executions are untouched. */
  function OnCheck(a: ActionStatus, met: bool, t: nat): (r: ActionStatus)
    ensures !met && a.ack.state == Acked ==> r.ack == AckStatus(t, AwaitsSuccessfulExecution)
    ensures met || a.ack.state != Acked ==> r == a
    ensures r.lastExecution == a.lastExecution
    ensures r.lastSuccessfulExecution == a.lastSuccessfulExecution
  {
    a.(ack := Ack.OnCheck(a.ack, met, t))
  }

  /** Whatever the action status receives: an execution report, an ack, or a check of its watch. */
  datatype Event =
    | Executed(t: nat, success: bool)
    | Acknowledged(t: nat)
    | Checked(met: bool, t: nat)

  function Apply(a: ActionStatus, e: Event): ActionStatus {
    match e
    case Executed(t, success) => Update(a, t, success)
    case Acknowledged(t) => OnAck(a, t)
    case Checked(met, t) => OnCheck(a, met, t)
  }

  function Run(a: ActionStatus, es: seq<Event>): ActionStatus
    decreases |es|
  {
    if |es| == 0 then a else Run(Apply(a, es[0]), es[1..])
  }

  /**
    The acknowledgment events an action event feeds to the sub-machine; a
    failed execution feeds none.
   */
  function Translate(e: Event): seq<Ack.Event> {
    match e
    case Executed(t, success) => if success then [SuccessfulExecution(t)] else []
    case Acknowledged(t) => [Acknowledge(t)]
    case Checked(met, t) => [Check(met, t)]
  }

  function AckEvents(es: seq<Event>): seq<Ack.Event>
    decreases |es|
  {
    if |es| == 0 then [] else Translate(es[0]) + AckEvents(es[1..])
  }

  /** The ack part of an action status is exactly the sub-machine run on the translated events. */
  lemma {:induction false} AckIsSubMachine(a: ActionStatus, es: seq<Event>)
    ensures Run(a, es).ack == Ack.Run(a.ack, AckEvents(es))
    decreases |es|
  {
    if |es| > 0 {
      var b := Apply(a, es[0]);
      AckIsSubMachine(b, es[1..]);
      var head := Translate(es[0]);
      assert Ack.Run(a.ack, head) == b.ack by {
        if |head| == 1 {
          assert head[1..] == [];
        }
      }
      RunAppend(a.ack, head, AckEvents(es[1..]));
    }
  }

  /** Running two sequences of ack events one after the other is running their concatenation. */
  lemma {:induction false} RunAppend(a: AckStatus, xs: seq<Ack.Event>, ys: seq<Ack.Event>)
    ensures Ack.Run(a, xs + ys) == Ack.Run(Ack.Run(a, xs), ys)
    decreases |xs|
  {
    if |xs| > 0 {
      assert (xs + ys)[0] == xs[0];
      assert (xs + ys)[1..] == xs[1..] + ys;
      RunAppend(Ack.Next(a, xs[0]), xs[1..], ys);
    } else {
      assert xs + ys == ys;
    }
  }

  /** No sequence of events breaks the execution bookkeeping. */
  lemma {:induction false} RunPreservesValid(a: ActionStatus, es: seq<Event>)
    requires Valid(a)
    ensures Valid(Run(a, es))
    decreases |es|
  {
    if |es| > 0 {
      RunPreservesValid(Apply(a, es[0]), es[1..]);
    }
  }

  /**
    A successful run followed by an ack leaves the action acked, from any
    state an ackable action can be in (so whatever state a fresh status starts in).
   */
  lemma AckedAfterSuccessThenAck(a: ActionStatus, t1: nat, t2: nat)
    requires a.ack.state != NotAckable
    ensures OnAck(Update(a, t1, true), t2).ack.state == Acked
  {
  }

  /** An ack goes stale on the next unmet check: it then awaits a successful execution. */
  lemma ResetOnUnmetCondition(a: ActionStatus, t1: nat, t2: nat, t3: nat)
    requires a.ack.state != NotAckable
    ensures OnCheck(OnAck(Update(a, t1, true), t2), false, t3).ack == AckStatus(t3, AwaitsSuccessfulExecution)
  {
  }

  /** A met condition never regresses an acked action. */
  lemma MetCheckKeepsAck(a: ActionStatus, t: nat)
    requires a.ack.state == Acked
    ensures OnCheck(a, true, t).ack.state == Acked
  {
  }

  /** From a stale ack, a successful run makes the action ackable again and a failed one does not. */
  lemma SuccessRestoresAckable(a: ActionStatus, t: nat, success: bool)
    requires a.ack.state == AwaitsSuccessfulExecution
    ensures Update(a, t, success).ack.state == Ackable <==> success
  {
  }
}
