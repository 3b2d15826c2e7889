/** The ledger object itself: a shared file, and a client whose methods reload and rewrite it. */
module ActionClient {
  import opened Prelude
  import opened ActionLedger

  class LedgerFile {
    var content: Option<seq<Action>>
  }

  /** The validation loop of `_load_or_init`, with its set of identifiers seen so far. */
  method ReadLedger(content: Option<seq<Action>>) returns (r: Result<seq<Action>, LedgerError>)
    ensures r == Load(content)
  {
    if content.None? {
      return Ok([]);
    }
    var l := content.value;
    var seen: set<Value> := {};
    for n := 0 to |l|
      invariant ValidLedger(l[..n])
      invariant seen == set k | 0 <= k < n :: Get(l[k], ActionId)
    {
      assert l[..n + 1] == l[..n] + [l[n]];
      if !ValidAction(l[n]) {
        assert l[n] in l;
        return Err(BadFile);
      }
      var id := Get(l[n], ActionId);
      if id in seen {
        return Err(BadFile);
      }
      seen := seen + {id};
    }
    assert l[..|l|] == l;
    r := Ok(l);
  }

  /** The search loop of `_action`. */
  method Locate(l: seq<Action>, id: Value) returns (i: nat)
    ensures i == IndexOf(l, id)
  {
    i := 0;
    while i < |l| && Get(l[i], ActionId) != id
      invariant i <= |l| && IndexOf(l, id) == i + IndexOf(l[i..], id)
    {
      i := i + 1;
    }
  }

  class Client {
    const file: LedgerFile
    var actions: seq<Action>

    constructor (file: LedgerFile, loaded: seq<Action>)
      requires Load(file.content) == Ok(loaded)
      ensures this.file == file && actions == loaded
    {
      this.file := file;
      actions := loaded;
    }

    /** `_exclusive_mutation`: under the lock, the client's copy is replaced by the file's. */
    method Reload() returns (raised: Option<LedgerError>)
      modifies this
      ensures match Load(file.content)
              case Ok(l) => raised == None && actions == l
              case Err(e) => raised == Some(e) && actions == old(actions)
    {
      var loaded := ReadLedger(file.content);
      match loaded
      case Err(e) => raised := Some(e);
      case Ok(l) =>
        actions := l;
        raised := None;
    }

    method BeginAction(r: Request, now: nat) returns (reply: Result<Action, LedgerError>)
      modifies this, file
      ensures Outcome(file.content, actions, reply) == Begin(old(file.content), old(actions), r, now)
    {
      hide KeyInState, ValidLedger, ValidAction, Started, IndexOf;
      var raised := Reload();
      if raised.Some? {
        return Err(raised.value);
      }
      var at := Locate(actions, r.actionId);
      if at < |actions| {
        return Err(ActionIdExists);
      }
      if KeyInState(actions, r.key, {Done}) {
        return Err(CompletedKey);
      }
      if KeyInState(actions, r.key, ACTIVE) {
        return Err(ActiveKey);
      }
      var action := Started(r, now);
      if !ValidAction(action) {
        return Err(InvalidAction);
      }
      actions := actions + [action];
      file.content := Some(actions);
      reply := Ok(action);
    }

    method UpdateAction(id: Value, changes: map<Field, Value>, now: nat) returns (reply: Result<Action, LedgerError>)
      modifies this, file
      ensures Outcome(file.content, actions, reply) == Update(old(file.content), old(actions), id, changes, now)
    {
      hide ValidLedger, ValidAction, IndexOf, Effective, TouchesImmutable, IsState;
      if ActionId in changes && changes[ActionId] != id {
        return Err(ImmutableField);
      }
      if StateField in changes && !changes[StateField].StateOf? {
        return Err(InvalidState);
      }
      var raised := Reload();
      if raised.Some? {
        return Err(raised.value);
      }
      var i := Locate(actions, id);
      if i == |actions| {
        return Err(UnknownAction);
      }
      if TouchesImmutable(actions[i], changes) {
        return Err(ImmutableField);
      }
      if IsState(actions[i], TERMINAL) {
        if Effective(actions[i], changes) {
          return Err(TerminalIsImmutable);
        }
        return Ok(actions[i]);
      }
      if StateField in changes && changes[StateField] == StateOf(Resumed) && !IsState(actions[i], RESUMABLE) {
        return Err(NotResumable);
      }
      var action := (actions[i] + changes)[LastUpdate := Time(now)];
      actions := actions[i := action];
      if !ValidAction(action) {
        return Err(InvalidAction);
      }
      file.content := Some(actions);
      reply := Ok(action);
    }

    method ResumeAction(id: Value, processId: Value, resumeFrom: Value, now: nat) returns (reply: Result<Action, LedgerError>)
      modifies this, file
      ensures Outcome(file.content, actions, reply)
              == Resume(old(file.content), old(actions), id, processId, resumeFrom, now)
    {
      hide Update, IndexOf, IsState;
      var i := Locate(actions, id);
      if i == |actions| {
        return Err(UnknownAction);
      }
      if !IsState(actions[i], RESUMABLE) {
        return Err(NotResumable);
      }
      reply := UpdateAction(id, ResumeChanges(processId, resumeFrom), now);
    }

    method CompleteAction(id: Value, effect: Value, now: nat) returns (reply: Result<Action, LedgerError>)
      modifies this, file
      ensures Outcome(file.content, actions, reply)
              == Update(old(file.content), old(actions), id, DoneChanges(effect), now)
    {
      reply := UpdateAction(id, DoneChanges(effect), now);
    }

    method FailAction(id: Value, error: Value, toolEffect: Value, now: nat) returns (reply: Result<Action, LedgerError>)
      modifies this, file
      ensures Outcome(file.content, actions, reply)
              == Update(old(file.content), old(actions), id, FailChanges(error, toolEffect), now)
    {
      reply := UpdateAction(id, FailChanges(error, toolEffect), now);
    }

    /** Reads the file, never writes it. */
    method FindByIdempotencyKey(key: Value) returns (raised: Option<LedgerError>, found: Option<Action>)
      modifies this
      ensures match Load(file.content)
              case Ok(l) => raised == None && actions == l && found == FindByKey(l, key)
              case Err(e) => raised == Some(e) && actions == old(actions) && found == None
    {
      hide NewestFirst, WithKey, InDone;
      found := None;
      raised := Reload();
      if raised.Some? {
        return;
      }
      var matches := NewestFirst(WithKey(actions, key));
      var completed := InDone(matches);
      if completed != [] {
        found := Some(completed[0]);
      } else if matches != [] {
        found := Some(matches[0]);
      }
    }
  }
}
