/**
  Rendering a watch status to a structured document (`toXContent`) and
  reading it back. The document is an abstract map from field name to value;
  byte-level encoding is not modelled. Whether the sensitive headers appear
  is decided by the rendering parameters alone.
 */
module XContent {
  import opened Wrappers
  import opened Ack
  import opened Actions
  import opened Watch

  /** A JSON-like value. */
  datatype Value =
    | Bool(b: bool)
    | Num(n: nat)
    | Str(s: string)
    | Obj(fields: map<string, Value>)

  type Document = map<string, Value>

  /** Rendering parameters: whether sensitive headers are left out. */
  datatype Params = Params(hideHeaders: bool)

  /** The empty parameters hide headers. */
  const EmptyParams := Params(true)

  /** What a watch is stored with: headers kept. */
  const StorageParams := Params(false)

  const HeadersField := "headers"
  const LastCheckedField := "last_checked"
  const LastMetConditionField := "last_met_condition"
  const ActionsField := "actions"
  const AckField := "ack"
  const LastExecutionField := "last_execution"
  const LastSuccessfulExecutionField := "last_successful_execution"
  const TimestampField := "timestamp"
  const StateField := "state"
  const SuccessfulField := "successful"

  /** Every field name a document of a watch status can carry; a parse error names one of them. */
  const WatchFields := {
    HeadersField, LastCheckedField, LastMetConditionField, ActionsField, AckField,
    LastExecutionField, LastSuccessfulExecutionField, TimestampField, StateField, SuccessfulField
  }

  function StateName(s: State): string {
    match s
    case Ackable => "ackable"
    case AwaitsSuccessfulExecution => "awaits_successful_execution"
    case Acked => "acked"
    case NotAckable => "not_ackable"
  }

  function ParseState(v: Value): (r: Result<State>)
    ensures r.Success? ==> v == Str(StateName(r.value))
  {
    match v
    case Str(name) =>
      if name == "ackable" then Success(Ackable)
      else if name == "awaits_successful_execution" then Success(AwaitsSuccessfulExecution)
      else if name == "acked" then Success(Acked)
      else if name == "not_ackable" then Success(NotAckable)
      else Failure(StateField)
    case _ => Failure(StateField)
  }

  /** Reads a required field of an object. */
  function Field(m: Document, key: string): Result<Value> {
    if key in m then Success(m[key]) else Failure(key)
  }

  function ParseNat(v: Value, field: string): Result<nat> {
    if v.Num? then Success(v.n) else Failure(field)
  }

  /** The document's object, or an error naming `field`. */
  function ParseObj(v: Value, field: string): Result<Document> {
    if v.Obj? then Success(v.fields) else Failure(field)
  }

  function RenderAck(a: AckStatus): Value {
    Obj(map[TimestampField := Num(a.timestamp), StateField := Str(StateName(a.state))])
  }

  function ParseAck(v: Value): Result<AckStatus> {
    var m :- ParseObj(v, AckField);
    var ts :- Field(m, TimestampField);
    var t :- ParseNat(ts, TimestampField);
    var st :- Field(m, StateField);
    var s :- ParseState(st);
    Success(AckStatus(t, s))
  }

  function RenderExecution(e: Execution): Value {
    Obj(map[TimestampField := Num(e.timestamp), SuccessfulField := Bool(e.successful)])
  }

  function ParseExecution(v: Value, field: string): Result<Execution> {
    var m :- ParseObj(v, field);
    var ts :- Field(m, TimestampField);
    var t :- ParseNat(ts, TimestampField);
    var ok :- Field(m, SuccessfulField);
    if ok.Bool? then Success(Execution(t, ok.b)) else Failure(SuccessfulField)
  }

  /** Adds `key` to `m` only when there is something to say. */
  function Optional<T>(m: Document, key: string, o: Option<T>, render: T -> Value): Document {
    match o
    case None => m
    case Some(x) => m[key := render(x)]
  }

  /** An optional execution: absent when the field is missing. */
  function ParseOptionalExecution(m: Document, key: string): Result<Option<Execution>> {
    if key !in m then Success(None)
    else
      var e :- ParseExecution(m[key], key);
      Success(Some(e))
  }

  function RenderAction(a: ActionStatus): Value {
    var m := map[AckField := RenderAck(a.ack)];
    var m := Optional(m, LastExecutionField, a.lastExecution, RenderExecution);
    Obj(Optional(m, LastSuccessfulExecutionField, a.lastSuccessfulExecution, RenderExecution))
  }

  function ParseAction(v: Value): Result<ActionStatus> {
    var m :- ParseObj(v, ActionsField);
    var av :- Field(m, AckField);
    var ack :- ParseAck(av);
    var last :- ParseOptionalExecution(m, LastExecutionField);
    var good :- ParseOptionalExecution(m, LastSuccessfulExecutionField);
    Success(ActionStatus(ack, last, good))
  }

  function RenderActions(actions: map<string, ActionStatus>): Value {
    Obj(map id | id in actions :: RenderAction(actions[id]))
  }

  /** All action statuses, or an error when any one of them is malformed. */
  function ParseActions(v: Value): (r: Result<map<string, ActionStatus>>)
    ensures r.Success? ==> v.Obj? && r.value.Keys == v.fields.Keys
    ensures r.Success? ==> forall id | id in v.fields :: ParseAction(v.fields[id]) == Success(r.value[id])
  {
    match v
    case Obj(m) =>
      if forall id | id in m :: ParseAction(m[id]).Success? then
        Success(map id | id in m :: ParseAction(m[id]).value)
      else
        Failure(ActionsField)
    case _ => Failure(ActionsField)
  }

  function RenderHeaders(h: map<string, string>): Value {
    Obj(map k | k in h :: Str(h[k]))
  }

  /** A headers object, whose values must all be strings. */
  function ParseHeaders(v: Value): (r: Result<map<string, string>>)
    ensures r.Success? ==> v.Obj? && r.value.Keys == v.fields.Keys
    ensures r.Success? ==> forall k | k in v.fields :: v.fields[k] == Str(r.value[k])
  {
    match v
    case Obj(m) =>
      if forall k | k in m :: m[k].Str? then Success(map k | k in m :: m[k].s) else Failure(HeadersField)
    case _ => Failure(HeadersField)
  }

  /**
    The document for a watch status. Every field but the headers is always
    written (optional timestamps only when present); the headers are written
    only when the parameters do not hide them.
   */
  function Render(ws: WatchStatus, params: Params): (doc: Document)
    ensures HeadersField in doc <==> !params.hideHeaders && ws.headers.Some?
    ensures HeadersField in doc ==> doc[HeadersField].Obj?
    ensures ActionsField in doc
  {
    var m := map[ActionsField := RenderActions(ws.actions)];
    var m := Optional(m, LastCheckedField, ws.lastChecked, (t: nat) => Num(t));
    var m := Optional(m, LastMetConditionField, ws.lastMetCondition, (t: nat) => Num(t));
    if params.hideHeaders then m else Optional(m, HeadersField, ws.headers, RenderHeaders)
  }

  function ParseOptionalNat(m: Document, key: string): Result<Option<nat>> {
    if key !in m then Success(None)
    else
      var t :- ParseNat(m[key], key);
      Success(Some(t))
  }

  /** Reads a watch status back; a missing `headers` field means no headers. */
  function Parse(doc: Document): (r: Result<WatchStatus>)
    ensures r.Success? ==> (r.value.headers.Some? <==> HeadersField in doc)
    ensures ActionsField !in doc ==> r == Failure(ActionsField)
    ensures r.Failure? ==> r.error in WatchFields
  {
    var av :- Field(doc, ActionsField);
    var actions :- ParseActions(av);
    var lastChecked :- ParseOptionalNat(doc, LastCheckedField);
    var lastMet :- ParseOptionalNat(doc, LastMetConditionField);
    var headers :-
      if HeadersField in doc then
        var h :- ParseHeaders(doc[HeadersField]);
        Success(Some(h))
      else
        Success(None);
    Success(WatchStatus(lastChecked, lastMet, actions, headers))
  }

  /** Reading a rendered ack gives the ack back. */
  lemma ParseRenderAck(a: AckStatus)
    ensures ParseAck(RenderAck(a)) == Success(a)
  {
    match a.state
    case Ackable =>
    case AwaitsSuccessfulExecution =>
    case Acked =>
    case NotAckable =>
  }

  lemma ParseRenderAction(a: ActionStatus)
    ensures ParseAction(RenderAction(a)) == Success(a)
  {
    ParseRenderAck(a.ack);
  }

  lemma ParseRenderActions(actions: map<string, ActionStatus>)
    ensures ParseActions(RenderActions(actions)) == Success(actions)
  {
    var m := RenderActions(actions).fields;
    forall id | id in m
      ensures ParseAction(m[id]) == Success(actions[id])
    {
      ParseRenderAction(actions[id]);
    }
    assert (map id | id in m :: ParseAction(m[id]).value) == actions;
  }

  lemma ParseRenderHeaders(h: map<string, string>)
    ensures ParseHeaders(RenderHeaders(h)) == Success(h)
  {
    var m := RenderHeaders(h).fields;
    assert (map k | k in m :: m[k].s) == h;
  }

  /** What is written for storage reads back as the very same status, headers included. */
  lemma {:induction false} RoundTripStored(ws: WatchStatus)
    ensures Parse(Render(ws, StorageParams)) == Success(ws)
  {
    var doc := Render(ws, StorageParams);
    ParseRenderActions(ws.actions);
    assert doc[ActionsField] == RenderActions(ws.actions);
    if ws.headers.Some? {
      ParseRenderHeaders(ws.headers.value);
      assert doc[HeadersField] == RenderHeaders(ws.headers.value);
    }
  }

  /** What is written by default reads back as the same status with its headers dropped. */
  lemma {:induction false} RoundTripHidden(ws: WatchStatus)
    ensures Parse(Render(ws, EmptyParams)) == Success(ws.(headers := None))
  {
    var doc := Render(ws, EmptyParams);
    ParseRenderActions(ws.actions);
    assert doc[ActionsField] == RenderActions(ws.actions);
  }

  /** When revealed, the headers field is an object holding exactly the stored header pairs. */
  lemma RevealedHeadersAreStored(ws: WatchStatus, headers: map<string, string>)
    requires ws.headers == Some(headers)
    ensures HeadersField in Render(ws, StorageParams)
    ensures Render(ws, StorageParams)[HeadersField].Obj?
    ensures Render(ws, StorageParams)[HeadersField].fields.Keys == headers.Keys
    ensures forall k | k in headers :: Render(ws, StorageParams)[HeadersField].fields[k] == Str(headers[k])
  {
  }

  /**
    Hiding takes away the headers field and nothing else: the default document
    is the stored document without it.
   */
  lemma RedactionRemovesOnlyHeaders(ws: WatchStatus)
    ensures Render(ws, EmptyParams) == Render(ws, StorageParams) - {HeadersField}
  {
  }

  /** With hidden headers, the document does not depend on the headers at all. */
  lemma HiddenIgnoresHeaders(ws: WatchStatus, headers: Option<map<string, string>>)
    ensures Render(ws, EmptyParams) == Render(ws.(headers := headers), EmptyParams)
  {
  }
}
