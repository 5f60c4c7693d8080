/** The governed event registry (internal/constants/registry_governed.go) over an arbitrary
  * registry map, iterated in an arbitrary order. */
module GovernedRegistry {
  import opened Wrappers
  import opened Orders
  import opened Strings

  type EventType = string
  type ActionType = string

  datatype EventKind = Request | Outcome | Fact | Stream | Other(name: string)

  datatype Entry = Entry(
    key: string, kind: EventKind, transport: seq<string>, action: ActionType, outcomes: seq<string>)

  type Registry = map<EventType, Entry>

  datatype RegistryError =
    | UnknownActionType
    | UnknownEventType
    | EventNotRequest
    | EventNotGoverned
    | EventActionMismatch
    | OutcomeNotRegistered
    | OutcomeNotAllowed

  predicate Governed(e: Entry) { "governed" in e.transport }

  /** The event is a governed request for the action. */
  predicate Serves(reg: Registry, event: EventType, action: ActionType) {
    event in reg && reg[event].kind == Request && reg[event].action == action && Governed(reg[event])
  }

  // ---- choosing a request event ----------------------------------------------

  /** order is one way of ranging over the map. */
  ghost predicate IterationOrder(reg: Registry, order: seq<EventType>) {
    (forall e :: e in reg <==> e in order) && forall i, j :: 0 <= i < j < |order| ==> order[i] != order[j]
  }

  /** The match so far, "" standing for none. */
  function Pick(reg: Registry, action: ActionType, best: EventType, event: EventType): EventType {
    if Serves(reg, event, action) && (best == "" || StringLess(event, best)) then event else best
  }

  function Scan(reg: Registry, action: ActionType, order: seq<EventType>): EventType {
    if order == [] then "" else Pick(reg, action, Scan(reg, action, order[..|order| - 1]), order[|order| - 1])
  }

  function RequestFor(reg: Registry, action: ActionType, order: seq<EventType>): Result<EventType, RegistryError> {
    var m := Scan(reg, action, order);
    if m == "" then Err(UnknownActionType) else Ok(m)
  }

  /** The loop over the map. */
  method RequestEventForAction(reg: Registry, action: ActionType, order: seq<EventType>)
    returns (r: Result<EventType, RegistryError>)
    requires IterationOrder(reg, order)
    ensures r == RequestFor(reg, action, order)
  {
    var m := "";
    for i := 0 to |order|
      invariant m == Scan(reg, action, order[..i])
    {
      var event := order[i];
      assert order[..i + 1][..i] == order[..i];
      var entry := reg[event];
      if entry.kind != Request || entry.action != action {
        continue;
      }
      if "governed" !in entry.transport {
        continue;
      }
      if m == "" || StringLess(event, m) {
        m := event;
      }
    }
    assert order[..|order|] == order;
    if m == "" {
      return Err(UnknownActionType);
    }
    return Ok(m);
  }

  /** m is the smallest request event serving the action among those of order. */
  ghost predicate Smallest(reg: Registry, action: ActionType, order: seq<EventType>, m: EventType) {
    m in order && Serves(reg, m, action) &&
    forall e :: e in order && Serves(reg, e, action) && e != m ==> StringLess(m, e)
  }

  lemma {:induction false} ScanFindsSmallest(reg: Registry, action: ActionType, order: seq<EventType>)
    requires StrictTotal(StringLess)
    requires !Serves(reg, "", action)
    ensures var m := Scan(reg, action, order);
      if m == "" then forall e :: e in order ==> !Serves(reg, e, action)
      else Smallest(reg, action, order, m)
    decreases |order|
  {
    if order != [] {
      var init, last := order[..|order| - 1], order[|order| - 1];
      assert order == init + [last];
      ScanFindsSmallest(reg, action, init);
      var m := Scan(reg, action, init);
      if Serves(reg, last, action) && m != "" && StringLess(last, m) {
        forall e | e in order && Serves(reg, e, action) && e != last ensures StringLess(last, e) {
          assert e in init;
          assert e == m || StringLess(m, e);
        }
      }
    }
  }

  /** What the documentation promises: the smallest governed request event for the action, or an
    * error when there is none. */
  ghost predicate Promise(reg: Registry, action: ActionType, r: Result<EventType, RegistryError>) {
    match r
    case Ok(m) => Serves(reg, m, action) && forall e :: Serves(reg, e, action) && e != m ==> StringLess(m, e)
    case Err(e) => e == UnknownActionType && forall e :: !Serves(reg, e, action)
  }

  lemma PromiseKept(reg: Registry, action: ActionType, order: seq<EventType>)
    requires IterationOrder(reg, order) && !Serves(reg, "", action)
    ensures Promise(reg, action, RequestFor(reg, action, order))
  {
    StringLessStrictTotal();
    ScanFindsSmallest(reg, action, order);
    forall e | Serves(reg, e, action) ensures e in order {}
  }

  lemma {:induction false} SomeOrder(keys: set<EventType>) returns (order: seq<EventType>)
    ensures forall e :: e in keys <==> e in order
    ensures forall i, j :: 0 <= i < j < |order| ==> order[i] != order[j]
    decreases keys
  {
    if keys == {} {
      order := [];
    } else {
      var k :| k in keys;
      var rest := SomeOrder(keys - {k});
      order := rest + [k];
    }
  }

  /** An empty event name that serves the action, visited last, is taken for no match at all. */
  lemma EmptyNameLast(reg: Registry, action: ActionType, order: seq<EventType>)
    requires Serves(reg, "", action) && order != [] && order[|order| - 1] == ""
    ensures Scan(reg, action, order) == ""
  {
    var m := Scan(reg, action, order[..|order| - 1]);
    assert m == "" || StringLess("", m);
  }

  /** The promise is kept whatever the iteration order, exactly when the empty string is not an
    * event name serving the action. */
  lemma PromiseIff(reg: Registry, action: ActionType)
    ensures (forall order :: IterationOrder(reg, order) ==> Promise(reg, action, RequestFor(reg, action, order)))
      <==> !Serves(reg, "", action)
  {
    if !Serves(reg, "", action) {
      forall order | IterationOrder(reg, order) ensures Promise(reg, action, RequestFor(reg, action, order)) {
        PromiseKept(reg, action, order);
      }
    } else {
      var rest := SomeOrder(reg.Keys - {""});
      var order := rest + [""];
      assert IterationOrder(reg, order);
      EmptyNameLast(reg, action, order);
      assert !Promise(reg, action, RequestFor(reg, action, order));
    }
  }

  // ---- validation ------------------------------------------------------------

  function ValidateGovernedRequest(reg: Registry, event: EventType): Result<ActionType, RegistryError> {
    if event !in reg then Err(UnknownEventType)
    else
      var entry := reg[event];
      if entry.kind != Request then Err(EventNotRequest)
      else if !Governed(entry) then Err(EventNotGoverned)
      else if entry.action == "" then Err(EventNotGoverned)
      else Ok(entry.action)
  }

  /** None is acceptance. */
  function ValidateGovernedEnvelopeFields(reg: Registry, event: EventType, action: ActionType): Option<RegistryError> {
    match ValidateGovernedRequest(reg, event)
    case Err(e) => Some(e)
    case Ok(expected) => if action != expected then Some(EventActionMismatch) else None
  }

  function ValidateGovernedResultEnvelope(reg: Registry, request: EventType, outcome: EventType, action: ActionType)
    : Option<RegistryError>
  {
    match ValidateGovernedRequest(reg, request)
    case Err(e) => Some(e)
    case Ok(expected) =>
      if action != expected then Some(EventActionMismatch)
      else if outcome !in reg then Some(OutcomeNotRegistered)
      else if reg[outcome].kind != Outcome && reg[outcome].kind != Fact && reg[outcome].kind != Stream then
        Some(OutcomeNotAllowed)
      else if reg[request].outcomes == [] || reg[outcome].key in reg[request].outcomes then None
      else Some(OutcomeNotAllowed)
  }

  /** An envelope validates exactly when its event serves its action and the action has a name. */
  lemma EnvelopeIff(reg: Registry, event: EventType, action: ActionType)
    ensures ValidateGovernedEnvelopeFields(reg, event, action) == None <==> Serves(reg, event, action) && action != ""
  {
  }

  /** Which error an event gives that is no governed request: the first of the four conditions
    * that fails. */
  lemma RequestErrors(reg: Registry, event: EventType)
    ensures var r := ValidateGovernedRequest(reg, event);
      if event !in reg then r == Err(UnknownEventType)
      else if reg[event].kind != Request then r == Err(EventNotRequest)
      else if "governed" !in reg[event].transport || reg[event].action == "" then r == Err(EventNotGoverned)
      else r == Ok(reg[event].action)
  {
  }

  lemma EnvelopeErrors(reg: Registry, event: EventType, action: ActionType)
    ensures ValidateGovernedRequest(reg, event).Err? ==>
      ValidateGovernedEnvelopeFields(reg, event, action) == Some(ValidateGovernedRequest(reg, event).error)
    ensures ValidateGovernedRequest(reg, event).Ok? ==>
      ValidateGovernedEnvelopeFields(reg, event, action) ==
      if action == reg[event].action then None else Some(EventActionMismatch)
  {
  }

  /** The outcome event is registered, and of a kind that can be an outcome. */
  ghost predicate CanBeOutcome(reg: Registry, outcome: EventType) {
    outcome in reg && (reg[outcome].kind == Outcome || reg[outcome].kind == Fact || reg[outcome].kind == Stream)
  }

  /** The request names no outcomes, or this one by its key. */
  ghost predicate Allows(reg: Registry, request: EventType, outcome: EventType)
    requires request in reg && outcome in reg
  {
    |reg[request].outcomes| == 0 ||
    exists i :: 0 <= i < |reg[request].outcomes| && reg[request].outcomes[i] == reg[outcome].key
  }

  /** A result is accepted exactly when its request is a governed request for its action, the action
    * has a name, and its outcome is registered, of the right kind, and allowed by the request. */
  lemma ResultIff(reg: Registry, request: EventType, outcome: EventType, action: ActionType)
    ensures ValidateGovernedResultEnvelope(reg, request, outcome, action) == None <==>
      && Serves(reg, request, action) && action != ""
      && CanBeOutcome(reg, outcome) && Allows(reg, request, outcome)
  {
    if Serves(reg, request, action) && outcome in reg {
      var listed := reg[request].outcomes;
      assert (reg[outcome].key in listed) <==> exists i :: 0 <= i < |listed| && listed[i] == reg[outcome].key;
    }
  }

  /** And otherwise it is refused with the error of the request if it has one; else for the action,
    * for an unknown outcome, or for one that is not allowed, in this order. */
  lemma ResultErrors(reg: Registry, request: EventType, outcome: EventType, action: ActionType)
    requires ValidateGovernedResultEnvelope(reg, request, outcome, action) != None
    ensures ValidateGovernedResultEnvelope(reg, request, outcome, action) ==
      if ValidateGovernedEnvelopeFields(reg, request, action) != None then
        ValidateGovernedEnvelopeFields(reg, request, action)
      else if outcome !in reg then Some(OutcomeNotRegistered)
      else Some(OutcomeNotAllowed)
  {
  }

  /** What it takes to serve an action, in full. */
  lemma ServesIff(reg: Registry, event: EventType, action: ActionType)
    ensures Serves(reg, event, action) <==>
      && event in reg && reg[event].kind.Request? && reg[event].action == action
      && exists i :: 0 <= i < |reg[event].transport| && reg[event].transport[i] == "governed"
  {
    if event in reg {
      var ts := reg[event].transport;
      assert "governed" in ts <==> exists i :: 0 <= i < |ts| && ts[i] == "governed";
    }
  }

  /** The event chosen for an action validates in an envelope with that action, exactly when the
    * action has a name. */
  lemma ChosenValidatesIff(reg: Registry, action: ActionType, order: seq<EventType>)
    requires IterationOrder(reg, order) && RequestFor(reg, action, order).Ok?
    ensures ValidateGovernedEnvelopeFields(reg, RequestFor(reg, action, order).value, action) == None <==> action != ""
  {
    ScanServes(reg, action, order);
  }

  lemma {:induction false} ScanServes(reg: Registry, action: ActionType, order: seq<EventType>)
    ensures Scan(reg, action, order) != "" ==> Serves(reg, Scan(reg, action, order), action)
    decreases |order|
  {
    if order != [] { ScanServes(reg, action, order[..|order| - 1]); }
  }

  /** No accepted outcome is itself a governed request, so a result never passes for a request. */
  lemma OutcomeIsNotRequest(reg: Registry, request: EventType, outcome: EventType, action: ActionType, a: ActionType)
    requires ValidateGovernedResultEnvelope(reg, request, outcome, action) == None
    ensures ValidateGovernedEnvelopeFields(reg, request, action) == None
    ensures ValidateGovernedEnvelopeFields(reg, outcome, a) == Some(EventNotRequest)
    ensures outcome != request
  {
  }
}
