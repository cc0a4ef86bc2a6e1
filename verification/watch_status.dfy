/**
  The status of a watch (`WatchStatus`): when its condition was last checked
  and last met, one action status per action id, and the sensitive request
  headers captured for the watch.
 */
module Watch {
  import opened Wrappers
  import opened Ack
  import Actions

  datatype WatchStatus = WatchStatus(
    lastChecked: Option<nat>,
    lastMetCondition: Option<nat>,
    actions: map<string, Actions.ActionStatus>,
    headers: Option<map<string, string>>)

  /**
    Every action status keeps its bookkeeping, and the condition was not met
    later than it was last checked.
   */
  predicate Valid(ws: WatchStatus) {
    && (forall id | id in ws.actions :: Actions.Valid(ws.actions[id]))
    && (ws.lastMetCondition.Some? ==>
          ws.lastChecked.Some? && ws.lastMetCondition.value <= ws.lastChecked.value)
  }

  /** A status built from an initial last-checked time and a map of action statuses; no headers yet. */
  function Create(lastChecked: Option<nat>, actions: map<string, Actions.ActionStatus>): (r: WatchStatus)
    ensures (forall id | id in actions :: Actions.Valid(actions[id])) ==> Valid(r)
    ensures r.actions == actions
    ensures r.lastChecked == lastChecked && r.lastMetCondition.None? && r.headers.None?
  {
    WatchStatus(lastChecked, None, actions, None)
  }

  /** Looking up one action status: an unknown id gives `None`, not an error. */
  function ActionStatusOf(ws: WatchStatus, id: string): (r: Option<Actions.ActionStatus>)
    ensures r.Some? <==> id in ws.actions
    ensures r.Some? ==> r.value == ws.actions[id]
  {
    if id in ws.actions then Some(ws.actions[id]) else None
  }

  /**
    A check of the watch's condition at time `t`, fanned out to every action
    with the same outcome and time; no action is added or removed.
   */
  function OnCheck(ws: WatchStatus, met: bool, t: nat): (r: WatchStatus)
    ensures r.lastChecked == Some(t)
    ensures met ==> r.lastMetCondition == Some(t)
    ensures !met ==> r.lastMetCondition == ws.lastMetCondition
    ensures r.headers == ws.headers
    ensures r.actions.Keys == ws.actions.Keys
    ensures forall id | id in ws.actions ::
              && r.actions[id].lastExecution == ws.actions[id].lastExecution
              && r.actions[id].lastSuccessfulExecution == ws.actions[id].lastSuccessfulExecution
              && (if !met && ws.actions[id].ack.state == Acked
                  then r.actions[id].ack == AckStatus(t, AwaitsSuccessfulExecution)
                  else r.actions[id].ack == ws.actions[id].ack)
  {
    WatchStatus(
      Some(t),
      if met then Some(t) else ws.lastMetCondition,
      map id | id in ws.actions :: Actions.OnCheck(ws.actions[id], met, t),
      ws.headers)
  }

  /** Replaces the sensitive headers wholesale; nothing else changes. */
  function SetHeaders(ws: WatchStatus, headers: map<string, string>): (r: WatchStatus)
    ensures r.headers == Some(headers)
    ensures r.(headers := ws.headers) == ws
    ensures Valid(ws) <==> Valid(r)
  {
    ws.(headers := Some(headers))
  }

  /** Replaces the status of the known action `id`; every other part of the watch stays. */
  function WithAction(ws: WatchStatus, id: string, a: Actions.ActionStatus): (r: WatchStatus)
    requires id in ws.actions
    ensures r.actions.Keys == ws.actions.Keys && r.actions[id] == a
    ensures forall other | other in ws.actions && other != id :: r.actions[other] == ws.actions[other]
    ensures r.(actions := ws.actions) == ws
  {
    ws.(actions := ws.actions[id := a])
  }

  /** The execution engine reports an outcome for action `id`; an unknown id changes nothing. */
  function UpdateAction(ws: WatchStatus, id: string, t: nat, success: bool): (r: WatchStatus)
    ensures id !in ws.actions ==> r == ws
    ensures id in ws.actions ==>
              ActionStatusOf(r, id) == Some(Actions.Update(ws.actions[id], t, success))
    ensures r.actions.Keys == ws.actions.Keys
    ensures forall other | other in ws.actions && other != id :: r.actions[other] == ws.actions[other]
    ensures r.(actions := ws.actions) == ws
    ensures Valid(ws) ==> Valid(r)
  {
    if id in ws.actions then WithAction(ws, id, Actions.Update(ws.actions[id], t, success)) else ws
  }

  /** An operator acknowledges action `id`; an unknown id changes nothing. */
  function AckAction(ws: WatchStatus, id: string, t: nat): (r: WatchStatus)
    ensures id !in ws.actions ==> r == ws
    ensures id in ws.actions && ws.actions[id].ack.state == Ackable ==>
              ActionStatusOf(r, id) == Some(ws.actions[id].(ack := AckStatus(t, Acked)))
    ensures id in ws.actions && ws.actions[id].ack.state != Ackable ==> r == ws
    ensures r.actions.Keys == ws.actions.Keys
    ensures forall other | other in ws.actions && other != id :: r.actions[other] == ws.actions[other]
    ensures r.(actions := ws.actions) == ws
    ensures Valid(ws) ==> Valid(r)
  {
    if id in ws.actions then WithAction(ws, id, Actions.OnAck(ws.actions[id], t)) else ws
  }

  /**
    Checks at times no earlier than the last check keep the status valid;
    this is the order the caller promises to deliver checks in.
   */
  lemma OnCheckPreservesValid(ws: WatchStatus, met: bool, t: nat)
    requires Valid(ws)
    requires ws.lastChecked.Some? ==> ws.lastChecked.value <= t
    ensures Valid(OnCheck(ws, met, t))
  {
  }

  /** The check reaches the very action stored under `id`: the lookup shows it updated. */
  lemma CheckReachesStoredAction(ws: WatchStatus, id: string, met: bool, t: nat)
    requires id in ws.actions
    ensures ActionStatusOf(OnCheck(ws, met, t), id) == Some(Actions.OnCheck(ws.actions[id], met, t))
  {
  }

  /** An unmet check moves every acked action, and only those, to awaiting a successful execution. */
  lemma UnmetCheckResetsAcks(ws: WatchStatus, t: nat)
    ensures forall id | id in ws.actions ::
              OnCheck(ws, false, t).actions[id].ack.state == AwaitsSuccessfulExecution <==>
              ws.actions[id].ack.state in {Acked, AwaitsSuccessfulExecution}
  {
  }

  /** A met check leaves every action's ack exactly as it was. */
  lemma MetCheckKeepsAcks(ws: WatchStatus, t: nat)
    ensures forall id | id in ws.actions :: OnCheck(ws, true, t).actions[id] == ws.actions[id]
  {
  }

  /** A status built with no actions is valid, and headers can be set on it. */
  lemma EmptyStatusTakesHeaders(lastChecked: Option<nat>, headers: map<string, string>)
    ensures Valid(Create(lastChecked, map[]))
    ensures SetHeaders(Create(lastChecked, map[]), headers).headers == Some(headers)
    ensures Valid(SetHeaders(Create(lastChecked, map[]), headers))
  {
  }
}
