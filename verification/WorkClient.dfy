/** The work ledger object: a shared file, and a client that edits its copy and swaps it in. */
module WorkClient {
  import opened Prelude
  import opened WorkLedger
  import opened WorkScheduler

  class LedgerFile {
    var content: Doc
  }

  class Client {
    const file: LedgerFile
    var data: Doc
    /** The content whose digest was read last. */
    var loaded: Doc

    constructor (file: LedgerFile)
      requires ValidTasks(file.content.tasks)
      ensures this.file == file && State() == Copy(file.content, file.content)
    {
      this.file := file;
      data := file.content;
      loaded := file.content;
    }

    function State(): Copy
      reads this
    {
      Copy(data, loaded)
    }

    /** The search loop of `_task`. */
    method Locate(id: Value) returns (i: nat)
      ensures i == IndexOf(data.tasks, id)
    {
      i := 0;
      while i < |data.tasks| && Get(data.tasks[i], TaskId) != id
        invariant i <= |data.tasks| && IndexOf(data.tasks, id) == i + IndexOf(data.tasks[i..], id)
      {
        i := i + 1;
      }
    }

    /** Compare-and-swap under the lock. */
    method SaveCopy(now: nat) returns (saved: bool)
      modifies this, file
      ensures saved <==> old(file.content) == old(loaded)
      ensures saved ==> file.content == Doc(old(data.tasks), now) && State() == Copy(file.content, file.content)
      ensures !saved ==> file.content == old(file.content) && State() == old(State())
    {
      if file.content != loaded {
        return false;
      }
      data := data.(stamp := now);
      file.content := data;
      loaded := file.content;
      saved := true;
    }

    method CreateTask(t: Task, now: nat) returns (reply: Result<Task, LedgerError>)
      modifies this, file
      ensures Outcome(file.content, State(), reply) == Create(old(file.content), old(State()), t, now)
    {
      hide ValidTask, IndexOf;
      var task := if LastUpdate in t then t else t[LastUpdate := Stamp(now)];
      if !ValidTask(task) {
        return Err(InvalidTask);
      }
      var i := Locate(Get(task, TaskId));
      if i < |data.tasks| {
        return Err(TaskIdExists);
      }
      data := data.(tasks := data.tasks + [task]);
      var saved := SaveCopy(now);
      reply := if saved then Ok(task) else Err(PreimageDrift);
    }

    method UpdateTask(id: Value, changes: map<Field, Value>, now: nat) returns (reply: Result<Task, LedgerError>)
      modifies this, file
      ensures Outcome(file.content, State(), reply) == Update(old(file.content), old(State()), id, changes, now)
    {
      hide ValidTask, IndexOf, Closed, Effective;
      if TaskId in changes && changes[TaskId] != id {
        return Err(TaskIdIsImmutable);
      }
      if StateField in changes && !changes[StateField].StateOf? {
        return Err(InvalidState);
      }
      var i := Locate(id);
      if i == |data.tasks| {
        return Err(UnknownTask);
      }
      if Closed(data.tasks[i]) {
        if Effective(data.tasks[i], changes) {
          return Err(ClosedTask);
        }
        return Ok(data.tasks[i]);
      }
      var task := (data.tasks[i] + changes)[LastUpdate := Stamp(now)];
      data := data.(tasks := data.tasks[i := task]);
      if !ValidTask(task) {
        return Err(InvalidTask);
      }
      var saved := SaveCopy(now);
      reply := if saved then Ok(task) else Err(PreimageDrift);
    }

    method CompleteTask(id: Value, evidence: Option<Value>, head: Option<string>, now: nat)
      returns (reply: Result<Task, LedgerError>)
      modifies this, file
      ensures Outcome(file.content, State(), reply)
              == Complete(old(file.content), old(State()), id, evidence, head, now)
    {
      hide Update, IndexOf, Closed, DoneChanges;
      var i := Locate(id);
      if i == |data.tasks| {
        return Err(UnknownTask);
      }
      var task := data.tasks[i];
      if Closed(task) {
        return Err(ClosedTask);
      }
      if evidence.Some? && !Get(task, D4Evidence).Items? {
        return Err(TypeFault);
      }
      reply := UpdateTask(id, DoneChanges(task, evidence, head, now), now);
    }

    method ReopenTask(id: Value, reason: string, authority: string, next: string, now: nat)
      returns (reply: Result<Task, LedgerError>)
      modifies this, file
      ensures Outcome(file.content, State(), reply)
              == Reopen(old(file.content), old(State()), id, reason, authority, next, now)
    {
      hide ValidTask, IndexOf, InState, Blank, History;
      if Blank(reason) || Blank(authority) || Blank(next) || next == "NONE" {
        return Err(ReopenArgument);
      }
      var i := Locate(id);
      if i == |data.tasks| {
        return Err(UnknownTask);
      }
      var task := data.tasks[i];
      if !InState(task, Done) {
        return Err(NotDone);
      }
      var history := History(task);
      if history == None {
        return Err(TypeFault);
      }
      var entry := Reopened(now, reason, authority, PreviousSeal(task));
      var reopened := task + map[
        StateField := StateOf(Todo), NextAction := Text(next), Blockers := Items([]),
        ReopenHistory := Items(history.value + [entry]), LastUpdate := Stamp(now)
      ];
      reopened := reopened - {CompletionSeal, ClosedAt, ClosedHead};
      data := data.(tasks := data.tasks[i := reopened]);
      if !ValidTask(reopened) {
        return Err(InvalidTask);
      }
      var saved := SaveCopy(now);
      reply := if saved then Ok(reopened) else Err(PreimageDrift);
    }

    method BlockTask(id: Value, blocker: Value, now: nat) returns (reply: Result<Task, LedgerError>)
      modifies this, file
      ensures Outcome(file.content, State(), reply) == Block(old(file.content), old(State()), id, blocker, now)
    {
      hide Update, IndexOf, BlockChanges, AsList;
      var i := Locate(id);
      if i == |data.tasks| {
        return Err(UnknownTask);
      }
      var blockers := AsList(Get(data.tasks[i], Blockers));
      if blockers == None {
        return Err(TypeFault);
      }
      reply := UpdateTask(id, BlockChanges(blockers.value, blocker), now);
    }

    /** Returns the id and next action of the task the scheduler picks. */
    method GetNextAction(verified: set<Value>) returns (r: Option<(Value, Value)>)
      ensures match NextTask(verified, data.tasks)
              case None => r == None
              case Some(t) => r == Some((Get(t, TaskId), Get(t, NextAction)))
    {
      hide SortBy, Candidates, ListOpen;
      var sorted := SortBy(verified, Candidates(data.tasks, ListOpen(data.tasks)));
      if sorted == [] {
        return None;
      }
      r := Some((Get(sorted[0], TaskId), Get(sorted[0], NextAction)));
    }
  }
}
