/**
  The two scenarios of the watch status tests, stated for all timestamps,
  header names and header values instead of the wall clock and random strings.
 */
module Scenarios {
  import opened Wrappers
  import opened Ack
  import Actions
  import Watch
  import opened XContent

  /**
    A fresh action status is updated with a successful result and acked: it is
    acked. Put under "foo" in a new watch status, an unmet check leaves the
    status found under "foo" awaiting a successful execution.
   */
  lemma AckStatusIsResetOnUnmetCondition(t0: nat, t1: nat, t2: nat, t3: nat, t4: nat)
    ensures
      var acked := Actions.OnAck(Actions.Update(Actions.Create(t0, true), t1, true), t2);
      && acked.ack.state == Acked
      && var checked := Watch.OnCheck(Watch.Create(Some(t3), map["foo" := acked]), false, t4);
         && Watch.ActionStatusOf(checked, "foo").Some?
         && Watch.ActionStatusOf(checked, "foo").value.ack.state == AwaitsSuccessfulExecution
  {
    var acked := Actions.OnAck(Actions.Update(Actions.Create(t0, true), t1, true), t2);
    Actions.AckedAfterSuccessThenAck(Actions.Create(t0, true), t1, t2);
    var ws := Watch.Create(Some(t3), map["foo" := acked]);
    Watch.CheckReachesStoredAction(ws, "foo", false, t4);
  }

  /**
    A watch status with no actions takes a one-pair header map. Rendered with
    the empty parameters the document has no headers field; rendered for
    storage it has one, an object equal to the headers that were set.
   */
  lemma HeadersToXContent(t: nat, key: string, value: string)
    ensures
      var status := Watch.SetHeaders(Watch.Create(Some(t), map[]), map[key := value]);
      && HeadersField !in Render(status, EmptyParams)
      && HeadersField in Render(status, StorageParams)
      && Render(status, StorageParams)[HeadersField] == Obj(map[key := Str(value)])
      && ParseHeaders(Render(status, StorageParams)[HeadersField]) == Success(map[key := value])
  {
    var status := Watch.SetHeaders(Watch.Create(Some(t), map[]), map[key := value]);
    RevealedHeadersAreStored(status, map[key := value]);
    ParseRenderHeaders(map[key := value]);
  }
}
