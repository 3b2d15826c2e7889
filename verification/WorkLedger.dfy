/**
 * The work ledger: clients edit their own copy and save it only if the file still has the
 * digest they last saw. The digest is taken to be collision-free, so it is represented by the
 * document it stands for.
 */
module WorkLedger {
  import opened Prelude

  datatype State = Todo | Doing | Blocked | Hold | Done | Cancelled

  datatype Value =
    | Null
    | Text(text: string)
    | Stamp(t: nat)
    | StateOf(state: State)
    | Items(items: seq<Value>)
    | DigestOf(payload: Value)
    | Seal(closedAt: nat, closedHead: string, scope: Value, evidence: Value)
    | Legacy(unsealed: map<Field, Value>)
    | Reopened(at: nat, reason: string, authority: string, previousSeal: Value)

  datatype Field =
    | TaskId | ParentIntent | Title | Description | StateField | Priority | D3Coordinate | Dependencies
    | Blockers | CompletionCriteria | D4Evidence | LastUpdate | NextAction
    | ClosedAt | ClosedHead | CompletionSeal | ReopenHistory
    | Extra(name: string)

  const REQUIRED: set<Field> := {
    TaskId, ParentIntent, Title, Description, StateField, Priority, D3Coordinate, Dependencies,
    Blockers, CompletionCriteria, D4Evidence, LastUpdate, NextAction
  }

  const LIST_FIELDS: set<Field> := {Dependencies, Blockers, D4Evidence}

  /** A task is the dictionary the code stores: fields to values. */
  type Task = map<Field, Value>

  /** The file content: the tasks and UPDATED_AT. */
  datatype Doc = Doc(tasks: seq<Task>, stamp: nat)

  /** A client's copy, and the content whose digest it holds. */
  datatype Copy = Copy(data: Doc, loaded: Doc)

  datatype LedgerError =
    | TaskIdExists
    | UnknownTask
    | TaskIdIsImmutable
    | InvalidState
    | InvalidTask
    | ClosedTask
    | ReopenArgument
    | NotDone
    | TypeFault
    | PreimageDrift

  function Get(t: Task, f: Field): Value {
    if f in t then t[f] else Null
  }

  /** Python truthiness of a stored value; records are non-empty dictionaries. */
  predicate Truthy(v: Value) {
    v != Null && v != Text("") && v != Items([])
  }

  predicate InState(t: Task, s: State) {
    Get(t, StateField) == StateOf(s)
  }

  /** DONE or sealed. */
  predicate Closed(t: Task) {
    InState(t, Done) || Truthy(Get(t, CompletionSeal))
  }

  /** `_validate_task`. */
  predicate ValidTask(t: Task) {
    && REQUIRED <= t.Keys
    && t[StateField].StateOf?
    && t[Dependencies].Items? && t[Blockers].Items? && t[D4Evidence].Items?
  }

  predicate UniqueIds(ts: seq<Task>) {
    forall i, j :: 0 <= i < j < |ts| ==> Get(ts[i], TaskId) != Get(ts[j], TaskId)
  }

  /** The checks of `_load`. */
  predicate ValidTasks(ts: seq<Task>) {
    (forall i :: 0 <= i < |ts| ==> ValidTask(ts[i])) && UniqueIds(ts)
  }

  /** The position `_task` finds, or the length of the list. */
  function IndexOf(ts: seq<Task>, id: Value): (i: nat)
    ensures i <= |ts|
    ensures i < |ts| ==> Get(ts[i], TaskId) == id
    ensures forall k :: 0 <= k < i ==> Get(ts[k], TaskId) != id
  {
    if ts == [] || Get(ts[0], TaskId) == id then 0 else 1 + IndexOf(ts[1..], id)
  }

  /** Replacing a task by one with the same id moves no other. */
  lemma IndexAfterEdit(ts: seq<Task>, i: nat, t: Task, id: Value)
    requires i < |ts| && Get(t, TaskId) == Get(ts[i], TaskId)
    ensures IndexOf(ts[i := t], id) == IndexOf(ts, id)
  {
    hide Get, IndexOf;
    var ts' := ts[i := t];
    var k, k' := IndexOf(ts, id), IndexOf(ts', id);
    assert forall j :: 0 <= j < |ts| ==> Get(ts'[j], TaskId) == Get(ts[j], TaskId);
    assert k' < |ts| ==> Get(ts[k'], TaskId) == id;
    assert k < |ts| ==> Get(ts'[k], TaskId) == id;
  }

  // ----- operations as functions of the file and the client's copy ------------------------

  datatype Outcome = Outcome(file: Doc, copy: Copy, reply: Result<Task, LedgerError>)

  function Edited(c: Copy, ts: seq<Task>): Copy {
    c.(data := c.data.(tasks := ts))
  }

  /** `_save` after the copy was edited to `ts`: compare the file's digest, then swap. */
  function Save(file: Doc, c: Copy, ts: seq<Task>, t: Task, now: nat): Outcome {
    if file != c.loaded then Outcome(file, Edited(c, ts), Err(PreimageDrift))
    else Outcome(Doc(ts, now), Copy(Doc(ts, now), Doc(ts, now)), Ok(t))
  }

  function WithDefaultTime(t: Task, now: nat): Task {
    if LastUpdate in t then t else t[LastUpdate := Stamp(now)]
  }

  function Create(file: Doc, c: Copy, t: Task, now: nat): Outcome {
    var task := WithDefaultTime(t, now);
    if !ValidTask(task) then Outcome(file, c, Err(InvalidTask))
    else if IndexOf(c.data.tasks, Get(task, TaskId)) < |c.data.tasks| then Outcome(file, c, Err(TaskIdExists))
    else Save(file, c, c.data.tasks + [task], task, now)
  }

  function Updated(t: Task, changes: map<Field, Value>, now: nat): Task {
    (t + changes)[LastUpdate := Stamp(now)]
  }

  predicate Effective(t: Task, changes: map<Field, Value>) {
    exists f :: f in changes && Get(t, f) != changes[f]
  }

  function Update(file: Doc, c: Copy, id: Value, changes: map<Field, Value>, now: nat): Outcome {
    var ts := c.data.tasks;
    var i := IndexOf(ts, id);
    if TaskId in changes && changes[TaskId] != id then Outcome(file, c, Err(TaskIdIsImmutable))
    else if StateField in changes && !changes[StateField].StateOf? then Outcome(file, c, Err(InvalidState))
    else if i == |ts| then Outcome(file, c, Err(UnknownTask))
    else if Closed(ts[i]) then
      Outcome(file, c, if Effective(ts[i], changes) then Err(ClosedTask) else Ok(ts[i]))
    else
      var t := Updated(ts[i], changes, now);
      // the copy is edited before it is validated
      if !ValidTask(t) then Outcome(file, Edited(c, ts[i := t]), Err(InvalidTask))
      else Save(file, c, ts[i := t], t, now)
  }

  function ScopeOf(t: Task): Value {
    DigestOf(Items([
      Get(t, TaskId), Get(t, ParentIntent), Get(t, Title), Get(t, Description), Get(t, Priority),
      Get(t, D3Coordinate), Get(t, Dependencies), Get(t, CompletionCriteria)]))
  }

  function HeadOr(head: Option<string>): string {
    if head == None || head == Some("") then "UNSPECIFIED" else head.value
  }

  function Evidence(t: Task, evidence: Option<Value>): Value {
    var v := Get(t, D4Evidence);
    if evidence.Some? && v.Items? then Items(v.items + [evidence.value]) else v
  }

  function DoneChanges(t: Task, evidence: Option<Value>, head: Option<string>, now: nat): map<Field, Value> {
    var items := Evidence(t, evidence);
    map[
      StateField := StateOf(Done), D4Evidence := items, Blockers := Items([]), NextAction := Text("NONE"),
      ClosedAt := Stamp(now), ClosedHead := Text(HeadOr(head)),
      CompletionSeal := Seal(now, HeadOr(head), ScopeOf(t), DigestOf(items))
    ]
  }

  function Complete(file: Doc, c: Copy, id: Value, evidence: Option<Value>, head: Option<string>, now: nat): Outcome {
    var ts := c.data.tasks;
    var i := IndexOf(ts, id);
    if i == |ts| then Outcome(file, c, Err(UnknownTask))
    else if Closed(ts[i]) then Outcome(file, c, Err(ClosedTask))
    else if evidence.Some? && !Get(ts[i], D4Evidence).Items? then Outcome(file, c, Err(TypeFault))
    else Update(file, c, id, DoneChanges(ts[i], evidence, head, now), now)
  }

  /** The characters `str.strip` removes. */
  predicate IsSpace(ch: char) {
    var n := ch as int;
    || 0x09 <= n <= 0x0d || 0x1c <= n <= 0x20 || n == 0x85 || n == 0xa0 || n == 0x1680 || 0x2000 <= n <= 0x200a
    || n == 0x2028 || n == 0x2029 || n == 0x202f || n == 0x205f || n == 0x3000
  }

  /** `not s.strip()`. */
  predicate Blank(s: string) {
    forall ch :: ch in s ==> IsSpace(ch)
  }

  /** The seal a reopening puts on record: the stored one, or the marker of an unsealed task. */
  function PreviousSeal(t: Task): Value {
    if Get(t, CompletionSeal) == Null then Legacy(t) else Get(t, CompletionSeal)
  }

  function History(t: Task): Option<seq<Value>> {
    if ReopenHistory !in t then Some([])
    else if t[ReopenHistory].Items? then Some(t[ReopenHistory].items)
    else None
  }

  function ReopenedTask(t: Task, history: seq<Value>, reason: string, authority: string, next: string, now: nat): Task {
    (t + map[
       StateField := StateOf(Todo), NextAction := Text(next), Blockers := Items([]),
       ReopenHistory := Items(history + [Reopened(now, reason, authority, PreviousSeal(t))]),
       LastUpdate := Stamp(now)
     ]) - {CompletionSeal, ClosedAt, ClosedHead}
  }

  function Reopen(file: Doc, c: Copy, id: Value, reason: string, authority: string, next: string, now: nat): Outcome {
    var ts := c.data.tasks;
    var i := IndexOf(ts, id);
    if Blank(reason) || Blank(authority) || Blank(next) || next == "NONE" then Outcome(file, c, Err(ReopenArgument))
    else if i == |ts| then Outcome(file, c, Err(UnknownTask))
    else if !InState(ts[i], Done) then Outcome(file, c, Err(NotDone))
    else if History(ts[i]) == None then Outcome(file, c, Err(TypeFault))
    else
      var t := ReopenedTask(ts[i], History(ts[i]).value, reason, authority, next, now);
      if !ValidTask(t) then Outcome(file, Edited(c, ts[i := t]), Err(InvalidTask))
      else Save(file, c, ts[i := t], t, now)
  }

  function Letters(s: string): seq<Value> {
    seq(|s|, i requires 0 <= i < |s| => Text([s[i]]))
  }

  function StateName(s: State): string {
    match s
    case Todo => "TODO"
    case Doing => "DOING"
    case Blocked => "BLOCKED"
    case Hold => "HOLD"
    case Done => "DONE"
    case Cancelled => "CANCELLED"
  }

  /**
   * Python's `list(v)`: the items of a list, the characters of a string, the keys of a
   * dictionary. The characters of time stamps and digests are not spelled out.
   */
  function AsList(v: Value): Option<seq<Value>> {
    match v
    case Null => None
    case Items(items) => Some(items)
    case Text(text) => Some(Letters(text))
    case StateOf(s) => Some(Letters(StateName(s)))
    case Stamp(_) => Some([v])
    case DigestOf(_) => Some([v])
    case Seal(_, _, _, _) => Some([Text("CLOSED_AT"), Text("CLOSED_HEAD"), Text("SCOPE_SHA256"), Text("EVIDENCE_SHA256")])
    case Legacy(_) => Some([Text("LEGACY_UNSEALED"), Text("TASK_STATE_SHA256")])
    case Reopened(_, _, _, _) =>
      Some([Text("REOPENED_AT"), Text("REASON"), Text("AUTHORITY_REF"), Text("PREVIOUS_COMPLETION_SEAL")])
  }

  function BlockChanges(l: seq<Value>, blocker: Value): map<Field, Value> {
    map[StateField := StateOf(Blocked), Blockers := Items(if blocker in l then l else l + [blocker])]
  }

  function Block(file: Doc, c: Copy, id: Value, blocker: Value, now: nat): Outcome {
    var ts := c.data.tasks;
    var i := IndexOf(ts, id);
    if i == |ts| then Outcome(file, c, Err(UnknownTask))
    else
      match AsList(Get(ts[i], Blockers))
      case None => Outcome(file, c, Err(TypeFault))
      case Some(l) => Update(file, c, id, BlockChanges(l, blocker), now)
  }

  // ----- calls ------------------------------------------------------------------------------

  datatype Call =
    | CreateCall(task: Task)
    | UpdateCall(id: Value, changes: map<Field, Value>)
    | CompleteCall(id: Value, evidence: Option<Value>, head: Option<string>)
    | ReopenCall(id: Value, reason: string, authority: string, next: string)
    | BlockCall(id: Value, blocker: Value)

  function Perform(call: Call, file: Doc, c: Copy, now: nat): Outcome {
    match call
    case CreateCall(t) => Create(file, c, t, now)
    case UpdateCall(id, changes) => Update(file, c, id, changes, now)
    case CompleteCall(id, evidence, head) => Complete(file, c, id, evidence, head, now)
    case ReopenCall(id, reason, authority, next) => Reopen(file, c, id, reason, authority, next, now)
    case BlockCall(id, blocker) => Block(file, c, id, blocker, now)
  }

  /** List fields are given lists. */
  predicate TypedChanges(changes: map<Field, Value>) {
    forall f :: f in LIST_FIELDS && f in changes ==> changes[f].Items?
  }

  predicate Typed(call: Call) {
    call.UpdateCall? ==> TypedChanges(call.changes)
  }

  // ----- validation can only fail on an untyped update -----------------------------------------

  lemma UpdatedValidIff(t: Task, changes: map<Field, Value>, now: nat)
    requires ValidTask(t) && (StateField in changes ==> changes[StateField].StateOf?)
    ensures ValidTask(Updated(t, changes, now)) <==> TypedChanges(changes)
  {
    var u := Updated(t, changes, now);
    assert u.Keys == t.Keys + changes.Keys + {LastUpdate};
    assert Dependencies in LIST_FIELDS && Blockers in LIST_FIELDS && D4Evidence in LIST_FIELDS;
  }

  lemma DoneChangesTyped(t: Task, evidence: Option<Value>, head: Option<string>, now: nat)
    requires ValidTask(t)
    ensures TypedChanges(DoneChanges(t, evidence, head, now))
  {
  }

  lemma ReopenedIsValid(t: Task, history: seq<Value>, reason: string, authority: string, next: string, now: nat)
    requires ValidTask(t)
    ensures ValidTask(ReopenedTask(t, history, reason, authority, next, now))
  {
  }
}
