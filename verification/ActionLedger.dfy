/**
 * The action ledger: many clients, one file. Every mutation reloads the file under a lock,
 * so a client's own copy may be stale, or dirty after a refused call, without doing harm.
 */
module ActionLedger {
  import opened Prelude

  datatype State = Running | Waiting | Interrupted | Resumed | Done | Failed | Hold

  const TERMINAL: set<State> := {Done, Failed}
  const RESUMABLE: set<State> := {Interrupted, Hold}

  datatype Value = Null | Text(text: string) | Time(t: nat) | StateOf(state: State)

  datatype Field =
    | ActionId | TaskId | TurnId | ProcessId | StateField | TargetCoordinate | Tool | IdempotencyKey
    | StartedAt | LastUpdate | LastConfirmedEffect | LastToolEffect | ResumeFrom | Error
    | Extra(name: string)

  const REQUIRED: set<Field> := {
    ActionId, TaskId, TurnId, ProcessId, StateField, TargetCoordinate, Tool, IdempotencyKey,
    StartedAt, LastUpdate, LastConfirmedEffect, LastToolEffect, ResumeFrom, Error
  }

  const IMMUTABLE: set<Field> := {
    ActionId, TaskId, TurnId, TargetCoordinate, Tool, IdempotencyKey, StartedAt
  }

  /** An action is the dictionary the code stores: fields to values. */
  type Action = map<Field, Value>

  datatype LedgerError =
    | BadFile
    | ActionIdExists
    | CompletedKey
    | ActiveKey
    | UnknownAction
    | ImmutableField
    | InvalidState
    | TerminalIsImmutable
    | NotResumable
    | InvalidAction

  /** `action.get(field)`. */
  function Get(a: Action, f: Field): Value {
    if f in a then a[f] else Null
  }

  predicate Truthy(v: Value) {
    v != Null && v != Text("")
  }

  predicate IsState(a: Action, states: set<State>) {
    Get(a, StateField).StateOf? && Get(a, StateField).state in states
  }

  /** `_validate_action`. */
  predicate ValidAction(a: Action) {
    && REQUIRED <= a.Keys
    && a[StateField].StateOf?
    && Truthy(a[IdempotencyKey])
    && (IsState(a, TERMINAL) ==> Get(a, ResumeFrom) == Null)
  }

  predicate ValidLedger(l: seq<Action>) {
    && (forall i :: 0 <= i < |l| ==> ValidAction(l[i]))
    && (forall i, j :: 0 <= i < j < |l| ==> Get(l[i], ActionId) != Get(l[j], ActionId))
  }

  /** `_load_or_init`: a missing file is an empty ledger. */
  function Load(file: Option<seq<Action>>): Result<seq<Action>, LedgerError> {
    match file
    case None => Ok([])
    case Some(l) => if ValidLedger(l) then Ok(l) else Err(BadFile)
  }

  /** The position `_action` finds, or the length of the list. */
  function IndexOf(l: seq<Action>, id: Value): (i: nat)
    ensures i <= |l|
    ensures i < |l| ==> Get(l[i], ActionId) == id
    ensures forall k :: 0 <= k < i ==> Get(l[k], ActionId) != id
  {
    if l == [] || Get(l[0], ActionId) == id then 0 else 1 + IndexOf(l[1..], id)
  }

  // ----- operations as functions of the file and the client's copy --------------------

  /** What a call leaves in the file and in the client's copy, and what it returns or raises. */
  datatype Outcome = Outcome(file: Option<seq<Action>>, cache: seq<Action>, reply: Result<Action, LedgerError>)

  datatype Request = Request(
    actionId: Value, taskId: Value, turnId: Value, processId: Value, target: Value, tool: Value, key: Value)

  function Started(r: Request, now: nat): Action {
    map[
      ActionId := r.actionId, TaskId := r.taskId, TurnId := r.turnId, ProcessId := r.processId,
      StateField := StateOf(Running), TargetCoordinate := r.target, Tool := r.tool, IdempotencyKey := r.key,
      StartedAt := Time(now), LastUpdate := Time(now), LastConfirmedEffect := Null, LastToolEffect := Null,
      ResumeFrom := Null, Error := Null
    ]
  }

  predicate KeyInState(l: seq<Action>, key: Value, states: set<State>) {
    exists i :: 0 <= i < |l| && Get(l[i], IdempotencyKey) == key && IsState(l[i], states)
  }

  const ACTIVE: set<State> := {Running, Waiting, Interrupted, Resumed, Hold}

  function Begin(file: Option<seq<Action>>, cache: seq<Action>, r: Request, now: nat): Outcome {
    match Load(file)
    case Err(e) => Outcome(file, cache, Err(e))
    case Ok(l) =>
      var a := Started(r, now);
      if IndexOf(l, r.actionId) < |l| then Outcome(file, l, Err(ActionIdExists))
      else if KeyInState(l, r.key, {Done}) then Outcome(file, l, Err(CompletedKey))
      else if KeyInState(l, r.key, ACTIVE) then Outcome(file, l, Err(ActiveKey))
      else if !ValidAction(a) then Outcome(file, l, Err(InvalidAction))
      else Outcome(Some(l + [a]), l + [a], Ok(a))
  }

  function Updated(a: Action, changes: map<Field, Value>, now: nat): Action {
    (a + changes)[LastUpdate := Time(now)]
  }

  /** Some change really differs from what is stored. */
  predicate Effective(a: Action, changes: map<Field, Value>) {
    exists f :: f in changes && Get(a, f) != changes[f]
  }

  predicate TouchesImmutable(a: Action, changes: map<Field, Value>) {
    exists f :: f in IMMUTABLE && f in changes && changes[f] != Get(a, f)
  }

  function Update(file: Option<seq<Action>>, cache: seq<Action>, id: Value, changes: map<Field, Value>, now: nat): Outcome {
    if ActionId in changes && changes[ActionId] != id then Outcome(file, cache, Err(ImmutableField))
    else if StateField in changes && !changes[StateField].StateOf? then Outcome(file, cache, Err(InvalidState))
    else
      match Load(file)
      case Err(e) => Outcome(file, cache, Err(e))
      case Ok(l) =>
        var i := IndexOf(l, id);
        if i == |l| then Outcome(file, l, Err(UnknownAction))
        else if TouchesImmutable(l[i], changes) then Outcome(file, l, Err(ImmutableField))
        else if IsState(l[i], TERMINAL) then
          Outcome(file, l, if Effective(l[i], changes) then Err(TerminalIsImmutable) else Ok(l[i]))
        else if StateField in changes && changes[StateField] == StateOf(Resumed) && !IsState(l[i], RESUMABLE) then
          Outcome(file, l, Err(NotResumable))
        else
          var a := Updated(l[i], changes, now);
          var l' := l[i := a];
          // validation comes after the copy was changed: a refusal leaves it dirty
          if ValidAction(a) then Outcome(Some(l'), l', Ok(a)) else Outcome(file, l', Err(InvalidAction))
  }

  function ResumeChanges(processId: Value, resumeFrom: Value): map<Field, Value> {
    map[StateField := StateOf(Resumed), ProcessId := processId, ResumeFrom := resumeFrom, Error := Null]
  }

  /** The pre-check reads the client's own, possibly stale, copy. */
  function Resume(file: Option<seq<Action>>, cache: seq<Action>, id: Value, processId: Value, resumeFrom: Value, now: nat): Outcome {
    var i := IndexOf(cache, id);
    if i == |cache| then Outcome(file, cache, Err(UnknownAction))
    else if !IsState(cache[i], RESUMABLE) then Outcome(file, cache, Err(NotResumable))
    else Update(file, cache, id, ResumeChanges(processId, resumeFrom), now)
  }

  function DoneChanges(effect: Value): map<Field, Value> {
    map[StateField := StateOf(Done), LastConfirmedEffect := effect, ResumeFrom := Null, Error := Null]
  }

  function FailChanges(error: Value, toolEffect: Value): map<Field, Value> {
    map[StateField := StateOf(Failed), Error := error, LastToolEffect := toolEffect, ResumeFrom := Null]
  }

  // ----- queries --------------------------------------------------------------------

  function TimeOf(a: Action): nat {
    if Get(a, LastUpdate).Time? then Get(a, LastUpdate).t else 0
  }

  /** The sort key `(LAST_UPDATE, ACTION_ID)`, compared the way tuples are. */
  predicate Newer(a: Action, b: Action) {
    || TimeOf(a) > TimeOf(b)
    || (TimeOf(a) == TimeOf(b) && Get(a, ActionId).Text? && Get(b, ActionId).Text?
        && LexLess(Get(b, ActionId).text, Get(a, ActionId).text))
  }

  function Insert(a: Action, l: seq<Action>): seq<Action> {
    if l == [] || !Newer(l[0], a) then [a] + l else [l[0]] + Insert(a, l[1..])
  }

  /** `matches.sort(key=..., reverse=True)`. */
  function NewestFirst(l: seq<Action>): seq<Action> {
    if l == [] then [] else Insert(l[0], NewestFirst(l[1..]))
  }

  function WithKey(l: seq<Action>, key: Value): seq<Action> {
    if l == [] then []
    else (if Get(l[0], IdempotencyKey) == key then [l[0]] else []) + WithKey(l[1..], key)
  }

  function InDone(l: seq<Action>): seq<Action> {
    if l == [] then []
    else (if IsState(l[0], {Done}) then [l[0]] else []) + InDone(l[1..])
  }

  /** `find_by_idempotency_key` on the freshly loaded ledger. */
  function FindByKey(l: seq<Action>, key: Value): Option<Action> {
    var matches := NewestFirst(WithKey(l, key));
    var completed := InDone(matches);
    if completed != [] then Some(completed[0])
    else if matches != [] then Some(matches[0])
    else None
  }

  // ----- the invariant of the file -----------------------------------------------------

  predicate SameKey(a: Action, b: Action) {
    Get(a, IdempotencyKey) == Get(b, IdempotencyKey)
  }

  /** In list order all actions of a key but the last are FAILED. */
  predicate Disciplined(l: seq<Action>) {
    && ValidLedger(l)
    && forall i, j :: 0 <= i < j < |l| && SameKey(l[i], l[j]) ==> IsState(l[i], {Failed})
  }

  predicate FileDisciplined(file: Option<seq<Action>>) {
    file.Some? ==> Disciplined(file.value)
  }

  /** Of two actions with one key the later in the list was updated later; nothing lies beyond `clock`. */
  predicate Timely(l: seq<Action>, clock: nat) {
    && (forall i :: 0 <= i < |l| ==> TimeOf(l[i]) <= clock)
    && (forall i, j :: 0 <= i < j < |l| && SameKey(l[i], l[j]) ==> TimeOf(l[i]) < TimeOf(l[j]))
  }

  lemma StateCases(a: Action)
    requires ValidAction(a)
    ensures IsState(a, {Done}) || IsState(a, ACTIVE) || IsState(a, {Failed})
    ensures IsState(a, TERMINAL) <==> !IsState(a, ACTIVE)
  {
    match a[StateField].state
    case Running => case Waiting => case Interrupted => case Resumed => case Done => case Failed => case Hold =>
  }

  lemma TimeOfField(a: Action, now: nat)
    requires Get(a, LastUpdate) == Time(now)
    ensures TimeOf(a) == now
  {
  }

  lemma AppendKeepsDiscipline(l: seq<Action>, a: Action)
    requires Disciplined(l) && ValidAction(a)
    requires IndexOf(l, Get(a, ActionId)) == |l|
    requires !KeyInState(l, Get(a, IdempotencyKey), {Done}) && !KeyInState(l, Get(a, IdempotencyKey), ACTIVE)
    ensures Disciplined(l + [a])
  {
    hide ValidAction, IsState, Get;
    forall i | 0 <= i < |l|
      ensures Get(l[i], ActionId) != Get(a, ActionId)
      ensures SameKey(l[i], a) ==> IsState(l[i], {Failed})
    {
      StateCases(l[i]);
    }
  }

  lemma AppendKeepsTimely(l: seq<Action>, a: Action, clock: nat, now: nat)
    requires Timely(l, clock) && clock < now && Get(a, LastUpdate) == Time(now)
    ensures Timely(l + [a], now)
  {
    hide Get, SameKey;
    TimeOfField(a, now);
  }

  /** Only the last action of a key can be replaced, since the others have FAILED. */
  lemma ReplaceKeepsDiscipline(l: seq<Action>, i: nat, a: Action)
    requires Disciplined(l) && i < |l|
    requires ValidAction(a) && SameKey(l[i], a) && Get(a, ActionId) == Get(l[i], ActionId)
    requires !IsState(l[i], {Failed})
    ensures Disciplined(l[i := a])
  {
    hide ValidAction, IsState, Get;
  }

  lemma ReplaceKeepsTimely(l: seq<Action>, i: nat, a: Action, clock: nat, now: nat)
    requires Disciplined(l) && Timely(l, clock) && clock < now && i < |l|
    requires Get(a, LastUpdate) == Time(now) && SameKey(l[i], a) && !IsState(l[i], {Failed})
    ensures Timely(l[i := a], now)
  {
    hide ValidLedger, IsState, Get;
    TimeOfField(a, now);
  }

  lemma BeginKeepsDiscipline(file: Option<seq<Action>>, cache: seq<Action>, r: Request, now: nat)
    requires FileDisciplined(file)
    ensures FileDisciplined(Begin(file, cache, r, now).file)
  {
    hide KeyInState, ValidAction, ValidLedger;
    if Begin(file, cache, r, now).reply.Ok? {
      var l := Load(file).value;
      assert l == [] ==> Disciplined(l) by {
        EmptyIsDisciplined();
      }
      AppendKeepsDiscipline(l, Started(r, now));
    }
  }

  lemma EmptyIsDisciplined()
    ensures Disciplined([])
  {
  }

  lemma UpdateKeepsDiscipline(file: Option<seq<Action>>, cache: seq<Action>, id: Value, changes: map<Field, Value>, now: nat)
    requires FileDisciplined(file)
    ensures FileDisciplined(Update(file, cache, id, changes, now).file)
  {
    hide ValidAction, ValidLedger, TouchesImmutable, Updated;
    var o := Update(file, cache, id, changes, now);
    if o.file != file {
      var l := Load(file).value;
      var i := IndexOf(l, id);
      UpdateChangesOne(l[i], changes, now);
      ReplaceKeepsDiscipline(l, i, Updated(l[i], changes, now));
    }
  }

  /** A permitted change keeps every immutable field, identity and key among them. */
  lemma UpdateChangesOne(a: Action, changes: map<Field, Value>, now: nat)
    requires !TouchesImmutable(a, changes)
    ensures var b := Updated(a, changes, now);
            && (forall f :: f in IMMUTABLE ==> Get(b, f) == Get(a, f))
            && SameKey(a, b) && Get(b, ActionId) == Get(a, ActionId) && Get(b, LastUpdate) == Time(now)
  {
    assert IdempotencyKey in IMMUTABLE && ActionId in IMMUTABLE;
  }
}
