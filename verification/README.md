# Watch status of Elasticsearch Watcher

A Dafny model of the status record Watcher keeps for every watch, as its
unit test `WatchStatusTests` pins it down:

- **Ack state machine** (`ActionStatus.AckStatus`, module `Ack`): the states
  `ACKABLE`, `AWAITS_SUCCESSFUL_EXECUTION`, `ACKED` and `NOT_ACKABLE`, each
  change stamped with a time. An operator's ack moves an ackable action to
  `ACKED`. An unmet condition check moves an acked action to
  `AWAITS_SUCCESSFUL_EXECUTION`. A successful execution makes it ackable again.
- **Action status** (`ActionStatus`, module `Actions`): the ack machine plus the
  last execution and the last successful execution. An execution result is
  reduced to its success bit.
- **Watch status** (`WatchStatus`, module `Watch`): the last check time, the last
  time the condition was met, a map from action id to action status, and an
  optional map of sensitive request headers. `onCheck` fans a condition check
  out to every action. `actionStatus(id)` looks one up. `setHeaders` replaces
  the headers.
- **Rendering** (`toXContent`, module `XContent`): the status becomes a
  document, an abstract map from field name to a JSON-like value. The
  `headers` field is left out under the empty parameters. It is written,
  exactly as stored, only when the parameters say `hideHeaders(false)`. A
  parser reads documents back, so the rendering has a proved inverse.
- **Scenarios** (module `Scenarios`): the two test methods, stated for every
  timestamp and every header name and value.

Timestamps are `nat` values supplied by the caller. The ack and watch
statuses are immutable values, and each operation returns a new one.

The Java test mutates one `ActionStatus` object after putting it into the
map, and the watch status sees those changes through the shared reference.
The model builds the map from the action status as it stands after those
changes, which gives the same result.

## Model

| member | source | states |
|---|---|---|
| Ack.OnAck | plugin/src/test/java/org/elasticsearch/xpack/watcher/watch/WatchStatusTests.java:36-37 | an ack moves an ackable status to ACKED at the ack's time; in any other state it changes neither state nor timestamp |
| Ack.OnCheck | plugin/src/test/java/org/elasticsearch/xpack/watcher/watch/WatchStatusTests.java:40-42 | an unmet check moves ACKED to AWAITS_SUCCESSFUL_EXECUTION at the check's time; a met check, or any other state, leaves the status alone |
| Ack.OnSuccessfulExecution | plugin/src/test/java/org/elasticsearch/xpack/watcher/watch/WatchStatusTests.java:35 | a successful execution moves AWAITS_SUCCESSFUL_EXECUTION to ACKABLE at its time and leaves other states alone |
| Ack.StepFollowsEdge | plugin/src/test/java/org/elasticsearch/xpack/watcher/watch/WatchStatusTests.java:35-42 | every step is a no-op or follows one edge of the transition graph (ack, invalidate, restore), stamped with the event's time |
| Ack.EdgeIsTaken | plugin/src/test/java/org/elasticsearch/xpack/watcher/watch/WatchStatusTests.java:35-42 | every edge of the transition graph is realised by some event at any chosen time |
| Ack.OnAckIdempotent | plugin/src/test/java/org/elasticsearch/xpack/watcher/watch/WatchStatusTests.java:36-37 | acknowledging twice is the same as acknowledging once |
| Ack.NotAckableIsFixed | plugin/src/test/java/org/elasticsearch/xpack/watcher/watch/WatchStatusTests.java:35-42 | no sequence of events enters or leaves NOT_ACKABLE |
| Ack.TimestampMonotone | plugin/src/test/java/org/elasticsearch/xpack/watcher/watch/WatchStatusTests.java:35-40 | for events in time order, none earlier than the status, the ack timestamp never decreases and ends no later than the last event |
| Actions.Create | plugin/src/test/java/org/elasticsearch/xpack/watcher/watch/WatchStatusTests.java:32 | a fresh status has no executions and is ACKABLE, or NOT_ACKABLE for an action that cannot be acked, stamped with the creation time |
| Actions.Update | plugin/src/test/java/org/elasticsearch/xpack/watcher/watch/WatchStatusTests.java:35 | an execution is recorded as the last execution; a success is also the last successful one and lifts a stale-ack hold; a failure leaves the ack alone; the bookkeeping invariant is kept |
| Actions.OnAck | plugin/src/test/java/org/elasticsearch/xpack/watcher/watch/WatchStatusTests.java:36-37 | an ack of an ackable action makes it ACKED at the ack's time; otherwise nothing changes; executions are never touched |
| Actions.OnCheck | plugin/src/test/java/org/elasticsearch/xpack/watcher/watch/WatchStatusTests.java:40-42 | an unmet check turns ACKED into AWAITS_SUCCESSFUL_EXECUTION; otherwise nothing changes; executions are never touched |
| Actions.AckIsSubMachine | plugin/src/test/java/org/elasticsearch/xpack/watcher/watch/WatchStatusTests.java:35-42 | the ack part of an action status after any sequence of events is the ack machine run on the matching ack events |
| Actions.RunPreservesValid | plugin/src/test/java/org/elasticsearch/xpack/watcher/watch/WatchStatusTests.java:35 | no sequence of events breaks the bookkeeping of last and last successful execution |
| Actions.AckedAfterSuccessThenAck | plugin/src/test/java/org/elasticsearch/xpack/watcher/watch/WatchStatusTests.java:32-37 | from any state but NOT_ACKABLE, a successful update followed by an ack leaves the action ACKED |
| Actions.ResetOnUnmetCondition | plugin/src/test/java/org/elasticsearch/xpack/watcher/watch/WatchStatusTests.java:35-42 | success, ack, then an unmet check leaves the action awaiting a successful execution, stamped with the check's time |
| Actions.MetCheckKeepsAck | plugin/src/test/java/org/elasticsearch/xpack/watcher/watch/WatchStatusTests.java:40 | a met check never regresses an ACKED action |
| Actions.SuccessRestoresAckable | plugin/src/test/java/org/elasticsearch/xpack/watcher/watch/WatchStatusTests.java:35 | from AWAITS_SUCCESSFUL_EXECUTION an update makes the action ACKABLE exactly when it succeeded |
| Watch.Create | plugin/src/test/java/org/elasticsearch/xpack/watcher/watch/WatchStatusTests.java:39 | a new watch status holds the given action map, the given last-check time, no met condition and no headers |
| Watch.ActionStatusOf | plugin/src/test/java/org/elasticsearch/xpack/watcher/watch/WatchStatusTests.java:42 | lookup by id finds the stored action status exactly when the id is in the map, and gives none otherwise |
| Watch.OnCheck | plugin/src/test/java/org/elasticsearch/xpack/watcher/watch/WatchStatusTests.java:40 | a check records its time as last checked (and as last met when met), keeps the headers and the set of action ids, and applies the same outcome and time to every action |
| Watch.SetHeaders | plugin/src/test/java/org/elasticsearch/xpack/watcher/watch/WatchStatusTests.java:49-50 | the headers become the given map and nothing else changes |
| Watch.UpdateAction | plugin/src/test/java/org/elasticsearch/xpack/watcher/watch/WatchStatusTests.java:35 | an execution report reaches only the named action; an unknown id changes nothing |
| Watch.AckAction | plugin/src/test/java/org/elasticsearch/xpack/watcher/watch/WatchStatusTests.java:36 | an ack reaches only the named action and acks it when ackable; an unknown id changes nothing |
| Watch.OnCheckPreservesValid | plugin/src/test/java/org/elasticsearch/xpack/watcher/watch/WatchStatusTests.java:39-40 | checks delivered in time order keep the watch status valid |
| Watch.CheckReachesStoredAction | plugin/src/test/java/org/elasticsearch/xpack/watcher/watch/WatchStatusTests.java:33-42 | the check reaches the action stored under an id: the lookup by that id returns it checked |
| Watch.UnmetCheckResetsAcks | plugin/src/test/java/org/elasticsearch/xpack/watcher/watch/WatchStatusTests.java:40-42 | after an unmet check an action awaits a successful execution exactly when it was acked or already awaiting |
| Watch.MetCheckKeepsAcks | plugin/src/test/java/org/elasticsearch/xpack/watcher/watch/WatchStatusTests.java:40 | a met check leaves every action status as it was |
| Watch.EmptyStatusTakesHeaders | plugin/src/test/java/org/elasticsearch/xpack/watcher/watch/WatchStatusTests.java:46-50 | a status built with no actions is valid and keeps the headers set on it |
| XContent.Render | plugin/src/test/java/org/elasticsearch/xpack/watcher/watch/WatchStatusTests.java:52-67 | the document has a headers field exactly when headers are not hidden and a header map (possibly empty) is set, and it is then an object |
| XContent.Parse | plugin/src/test/java/org/elasticsearch/xpack/watcher/watch/WatchStatusTests.java:55-56 | a parsed status has headers exactly when the document has a headers field; a document without `actions` fails naming that field, and every failure names a field of the document schema |
| XContent.ParseHeaders | plugin/src/test/java/org/elasticsearch/xpack/watcher/watch/WatchStatusTests.java:68-69 | a parsed headers object has the same keys as the document, and every value is the string read |
| XContent.ParseRenderAck | plugin/src/test/java/org/elasticsearch/xpack/watcher/watch/WatchStatusTests.java:62-66 | reading a rendered ack status gives it back |
| XContent.ParseRenderAction | plugin/src/test/java/org/elasticsearch/xpack/watcher/watch/WatchStatusTests.java:62-66 | reading a rendered action status gives it back |
| XContent.ParseRenderActions | plugin/src/test/java/org/elasticsearch/xpack/watcher/watch/WatchStatusTests.java:62-66 | reading the rendered action map gives it back |
| XContent.ParseRenderHeaders | plugin/src/test/java/org/elasticsearch/xpack/watcher/watch/WatchStatusTests.java:68-70 | reading rendered headers gives the same header map back |
| XContent.RoundTripStored | plugin/src/test/java/org/elasticsearch/xpack/watcher/watch/WatchStatusTests.java:61-70 | the document written for storage reads back as the same status, headers included |
| XContent.RoundTripHidden | plugin/src/test/java/org/elasticsearch/xpack/watcher/watch/WatchStatusTests.java:52-58 | the default document reads back as the same status without headers |
| XContent.RevealedHeadersAreStored | plugin/src/test/java/org/elasticsearch/xpack/watcher/watch/WatchStatusTests.java:67-70 | with hideHeaders(false) the headers field is an object whose pairs are exactly the stored headers |
| XContent.RedactionRemovesOnlyHeaders | plugin/src/test/java/org/elasticsearch/xpack/watcher/watch/WatchStatusTests.java:50-67 | for the same status, the default document is the stored document minus the headers field |
| XContent.HiddenIgnoresHeaders | plugin/src/test/java/org/elasticsearch/xpack/watcher/watch/WatchStatusTests.java:52-57 | under the empty parameters the document does not depend on the headers |
| Scenarios.AckStatusIsResetOnUnmetCondition | plugin/src/test/java/org/elasticsearch/xpack/watcher/watch/WatchStatusTests.java:30-43 | success then ack gives ACKED, and after an unmet check of the owning watch the status found under "foo" awaits a successful execution |
| Scenarios.HeadersToXContent | plugin/src/test/java/org/elasticsearch/xpack/watcher/watch/WatchStatusTests.java:45-73 | for any header name and value, the default document has no headers field and the stored one has it equal to the headers set |

## Left out

- The source of `ActionStatus` and `WatchStatus` is not part of this model; only their test is. The behaviours below go beyond what the test shows and are modelling assumptions:
- Ack.OnAck: an ack outside ACKABLE changing nothing is assumed; the test only acks right after a successful update.
- Actions.OnAck: the same assumption as Ack.OnAck, which it delegates to.
- Actions.Create: a fresh status is assumed ACKABLE, and the `ackable` parameter with its NOT_ACKABLE state is assumed; the Java constructor takes only a time and the test never shows NOT_ACKABLE. The test only needs a state from which success plus ack reaches ACKED, and Actions.AckedAfterSuccessThenAck shows that every state but NOT_ACKABLE qualifies.
- Actions.Update: the failure path and the last and last-successful execution bookkeeping are assumed; the test shows one successful update only.
- XContent.Parse: reading a document back into a watch status is an assumed inverse of rendering; the test only reads the rendered document into a generic map, so Parse and the round-trip lemmas built on it are not claims about the source.
- Ack.OnCheck: leaving ACKABLE unchanged on an unmet check, and every state unchanged on a met check, is assumed.
- Ack.OnSuccessfulExecution: the move from AWAITS_SUCCESSFUL_EXECUTION to ACKABLE is assumed.
- Watch.Create: the constructor's first argument is taken to be the initial last-checked time.
- Watch.AckAction: routing an ack by action id, with an unknown id changing nothing, is assumed.
- Watch.UpdateAction: routing an execution report by action id, with an unknown id changing nothing, is assumed.
- Field names other than `headers`, and the omission of absent optional timestamps, are modelling choices.
- Byte-level JSON, the document builder and parser of the library: the document is an abstract map.
- Wall-clock time (`now()`) and random strings: timestamps and header strings are parameters.
- Result payloads of actions: only the success bit is kept; throttling is not modelled.
- The status version, the watch's active state and execution state: not visible in the test and not asserted.
- Concurrency: a status is assumed to have a single writer.
