/** What each call of the action ledger answers and stores, in terms of the stored fields alone. */
module ActionCalls {
  import opened Prelude
  import opened ActionLedger
  import Runs = ActionRuns

  /** The fields every stored action has. */
  predicate HasAllFields(a: Action) {
    && ActionId in a && TaskId in a && TurnId in a && ProcessId in a && StateField in a && TargetCoordinate in a
    && Tool in a && IdempotencyKey in a && StartedAt in a && LastUpdate in a && LastConfirmedEffect in a
    && LastToolEffect in a && ResumeFrom in a && Error in a
  }

  predicate Terminal(a: Action) {
    Get(a, StateField) in {StateOf(Done), StateOf(Failed)}
  }

  predicate Waiting(a: Action) {
    Get(a, StateField) in {StateOf(Interrupted), StateOf(State.Hold)}
  }

  /** Complete, in a known state, with a key, and with nothing to resume from once it is finished. */
  predicate WellFormed(a: Action) {
    && HasAllFields(a) && a[StateField].StateOf? && a[IdempotencyKey] !in {Null, Text("")}
    && (Terminal(a) ==> a[ResumeFrom] == Null)
  }

  /** A missing file is empty; one that is there loads exactly if its actions are well-formed and told apart by their ids. */
  lemma LoadsIff(l: seq<Action>)
    ensures Load(None) == Ok([])
    ensures Load(Some(l)) ==
            if (forall a :: a in l ==> WellFormed(a)) && (forall i, j :: 0 <= i < j < |l| ==> Get(l[i], ActionId) != Get(l[j], ActionId))
            then Ok(l) else Err(BadFile)
  {
    hide ValidAction, WellFormed, Get;
    forall a
      ensures ValidAction(a) <==> WellFormed(a)
    {
      ValidActionIff(a);
    }
    assert forall i :: 0 <= i < |l| ==> l[i] in l;
  }

  lemma ValidActionIff(a: Action)
    ensures ValidAction(a) <==> WellFormed(a)
  {
    assert REQUIRED <= a.Keys <==> HasAllFields(a);
  }

  // ----- begin -----------------------------------------------------------------------------

  /** A running action with the fields of the request, begun and updated now, nothing else yet. */
  predicate IsStart(a: Action, r: Request, now: nat) {
    && a.Keys == {ActionId, TaskId, TurnId, ProcessId, StateField, TargetCoordinate, Tool, IdempotencyKey,
                  StartedAt, LastUpdate, LastConfirmedEffect, LastToolEffect, ResumeFrom, Error}
    && a[ActionId] == r.actionId && a[TaskId] == r.taskId && a[TurnId] == r.turnId && a[ProcessId] == r.processId
    && a[TargetCoordinate] == r.target && a[Tool] == r.tool && a[IdempotencyKey] == r.key
    && a[StateField] == StateOf(Running) && a[StartedAt] == Time(now) && a[LastUpdate] == Time(now)
    && a[LastConfirmedEffect] == Null && a[LastToolEffect] == Null && a[ResumeFrom] == Null && a[Error] == Null
  }

  ghost predicate SomeWith(l: seq<Action>, key: Value, states: set<Value>) {
    exists a: Action :: a in l && Get(a, IdempotencyKey) == key && Get(a, StateField) in states
  }

  ghost predicate SomeNamed(l: seq<Action>, id: Value) {
    exists a: Action :: a in l && Get(a, ActionId) == id
  }

  const UNFINISHED: set<Value> :=
    {StateOf(Running), StateOf(State.Waiting), StateOf(Interrupted), StateOf(Resumed), StateOf(State.Hold)}

  /**
   * Beginning an action: the refusals in their order, and the one action an accepted call appends.
   * A refused call leaves the file.
   */
  lemma BeginAnswers(file: Option<seq<Action>>, cache: seq<Action>, r: Request, now: nat)
    requires Load(file).Ok?
    ensures var l, o := Load(file).value, Begin(file, cache, r, now);
            && (SomeNamed(l, r.actionId) ==> o == Outcome(file, l, Err(ActionIdExists)))
            && (!SomeNamed(l, r.actionId) && SomeWith(l, r.key, {StateOf(Done)}) ==>
                  o == Outcome(file, l, Err(CompletedKey)))
            && (!SomeNamed(l, r.actionId) && !SomeWith(l, r.key, {StateOf(Done)}) && SomeWith(l, r.key, UNFINISHED) ==>
                  o == Outcome(file, l, Err(ActiveKey)))
            && (!SomeNamed(l, r.actionId) && !SomeWith(l, r.key, {StateOf(Done)} + UNFINISHED) ==>
                  if r.key in {Null, Text("")} then o == Outcome(file, l, Err(InvalidAction))
                  else o.reply.Ok? && IsStart(o.reply.value, r, now) && o.file == Some(l + [o.reply.value]) && o.cache == o.file.value)
  {
    hide ValidLedger, ValidAction, KeyInState, Started, IndexOf;
    var l := Load(file).value;
    NamedIff(l, r.actionId);
    KeyedIff(l, r.key);
    StartIs(r, now);
  }

  /** Over a file that does not load nothing begins. */
  lemma BeginNeedsFile(file: Option<seq<Action>>, cache: seq<Action>, r: Request, now: nat)
    requires Load(file).Err?
    ensures Begin(file, cache, r, now) == Outcome(file, cache, Err(BadFile))
  {
    hide ValidLedger;
  }

  lemma NamedIff(l: seq<Action>, id: Value)
    ensures SomeNamed(l, id) <==> IndexOf(l, id) < |l|
  {
    hide Get;
  }

  lemma KeyedIff(l: seq<Action>, key: Value)
    ensures KeyInState(l, key, {Done}) <==> SomeWith(l, key, {StateOf(Done)})
    ensures KeyInState(l, key, ACTIVE) <==> SomeWith(l, key, UNFINISHED)
    ensures SomeWith(l, key, {StateOf(Done)} + UNFINISHED) <==>
              SomeWith(l, key, {StateOf(Done)}) || SomeWith(l, key, UNFINISHED)
  {
    assert forall i :: 0 <= i < |l| ==> l[i] in l;
    forall a: Action
      ensures IsState(a, {Done}) <==> Get(a, StateField) in {StateOf(Done)}
      ensures IsState(a, ACTIVE) <==> Get(a, StateField) in UNFINISHED
    {
    }
    if a: Action :| a in l && Get(a, IdempotencyKey) == key && Get(a, StateField) in {StateOf(Done)} {
      var i :| 0 <= i < |l| && l[i] == a;
    }
    if a: Action :| a in l && Get(a, IdempotencyKey) == key && Get(a, StateField) in UNFINISHED {
      var i :| 0 <= i < |l| && l[i] == a;
    }
  }

  lemma StartIs(r: Request, now: nat)
    ensures IsStart(Started(r, now), r, now)
    ensures ValidAction(Started(r, now)) <==> r.key !in {Null, Text("")}
  {
  }

  // ----- update ----------------------------------------------------------------------------

  /** The changes are in, the update time is now, and nothing else is different. */
  ghost predicate IsUpdateOf(b: Action, a: Action, changes: map<Field, Value>, now: nat) {
    forall f :: Get(b, f) == if f == LastUpdate then Time(now) else if f in changes then changes[f] else Get(a, f)
  }

  predicate KeepsImmutable(a: Action, changes: map<Field, Value>) {
    forall f :: f in changes && f in {ActionId, TaskId, TurnId, TargetCoordinate, Tool, IdempotencyKey, StartedAt} ==>
      changes[f] == Get(a, f)
  }

  predicate ChangesNothing(a: Action, changes: map<Field, Value>) {
    forall f :: f in changes ==> changes[f] == Get(a, f)
  }

  /** The state an unfinished action is asked to take may be taken from where it stands. */
  predicate MayTake(a: Action, changes: map<Field, Value>) {
    StateField in changes && changes[StateField] == StateOf(Resumed) ==> Waiting(a)
  }

  /** An action that is to be finished keeps nothing to resume from. */
  predicate EndsCleanly(a: Action, changes: map<Field, Value>) {
    StateField in changes && changes[StateField] in {StateOf(Done), StateOf(Failed)} ==>
      (if ResumeFrom in changes then changes[ResumeFrom] else Get(a, ResumeFrom)) == Null
  }

  /**
   * Updating a stored action: the refusals in their order, and what an accepted call stores. A
   * terminal action only accepts what it already says.
   */
  lemma UpdateAnswers(l: seq<Action>, cache: seq<Action>, i: nat, changes: map<Field, Value>, now: nat)
    requires ValidLedger(l) && i < |l|
    requires ActionId in changes ==> changes[ActionId] == Get(l[i], ActionId)
    requires StateField in changes ==> changes[StateField].StateOf?
    ensures var a, o := l[i], Update(Some(l), cache, Get(l[i], ActionId), changes, now);
            && (o.reply.Err? ==> o.file == Some(l))
            && (!KeepsImmutable(a, changes) ==> o.reply == Err(ImmutableField))
            && (KeepsImmutable(a, changes) && Terminal(a) ==>
                  && o.file == Some(l) && o.cache == l
                  && o.reply == if ChangesNothing(a, changes) then Ok(a) else Err(TerminalIsImmutable))
            && (KeepsImmutable(a, changes) && !Terminal(a) ==>
                  if !MayTake(a, changes) then o.reply == Err(NotResumable)
                  else if !EndsCleanly(a, changes) then o.reply == Err(InvalidAction)
                  else && o.reply.Ok? && o.file == Some(l[i := o.reply.value]) && o.cache == o.file.value
                       && IsUpdateOf(o.reply.value, a, changes, now))
  {
    hide ValidAction, ValidLedger, Updated, TouchesImmutable, Effective, KeepsImmutable, ChangesNothing, EndsCleanly, Terminal,
      IsUpdateOf, IndexOf;
    LocatedAt(l, i);
    ChecksAre(l[i], changes);
    UpdatedIs(l[i], changes, now);
    StoredIsValid(l, i);
    if KeepsImmutable(l[i], changes) && !Terminal(l[i]) {
      UpdatedIsValid(l[i], changes, now);
    }
  }

  lemma StoredIsValid(l: seq<Action>, i: nat)
    requires ValidLedger(l) && i < |l|
    ensures ValidAction(l[i])
  {
  }

  lemma LocatedAt(l: seq<Action>, i: nat)
    requires ValidLedger(l) && i < |l|
    ensures IndexOf(l, Get(l[i], ActionId)) == i
  {
    hide ValidAction, Get;
  }

  lemma ChecksAre(a: Action, changes: map<Field, Value>)
    ensures TouchesImmutable(a, changes) <==> !KeepsImmutable(a, changes)
    ensures Effective(a, changes) <==> !ChangesNothing(a, changes)
    ensures IsState(a, TERMINAL) <==> Terminal(a)
    ensures IsState(a, RESUMABLE) <==> Waiting(a)
  {
  }

  lemma UpdatedIs(a: Action, changes: map<Field, Value>, now: nat)
    ensures IsUpdateOf(Updated(a, changes, now), a, changes, now)
  {
  }

  lemma UpdatedIsValid(a: Action, changes: map<Field, Value>, now: nat)
    requires ValidAction(a) && KeepsImmutable(a, changes) && !Terminal(a)
    requires StateField in changes ==> changes[StateField].StateOf?
    ensures ValidAction(Updated(a, changes, now)) <==> EndsCleanly(a, changes)
  {
    var b := Updated(a, changes, now);
    assert b.Keys == a.Keys + changes.Keys + {LastUpdate};
    assert b[IdempotencyKey] == a[IdempotencyKey];
  }

  /** The refusals that come before any action is looked at, and the one for an action nobody began. */
  lemma UpdateRefuses(file: Option<seq<Action>>, cache: seq<Action>, id: Value, changes: map<Field, Value>, now: nat)
    ensures var o := Update(file, cache, id, changes, now);
            && (ActionId in changes && changes[ActionId] != id ==> o == Outcome(file, cache, Err(ImmutableField)))
            && ((ActionId in changes ==> changes[ActionId] == id) && StateField in changes && !changes[StateField].StateOf? ==>
                  o == Outcome(file, cache, Err(InvalidState)))
            && ((ActionId in changes ==> changes[ActionId] == id) && (StateField in changes ==> changes[StateField].StateOf?) ==>
                  && (Load(file).Err? ==> o == Outcome(file, cache, Err(BadFile)))
                  && (Load(file).Ok? && !SomeNamed(Load(file).value, id) ==>
                        o == Outcome(file, Load(file).value, Err(UnknownAction))))
  {
    hide ValidLedger;
    if Load(file).Ok? {
      NamedIff(Load(file).value, id);
    }
  }

  // ----- resume, complete, fail ----------------------------------------------------------------

  /** What resuming puts into field `f`. */
  function AfterResume(a: Action, processId: Value, resumeFrom: Value, now: nat, f: Field): Value {
    match f
    case StateField => StateOf(Resumed)
    case ProcessId => processId
    case ResumeFrom => resumeFrom
    case Error => Null
    case LastUpdate => Time(now)
    case _ => Get(a, f)
  }

  /** What completing puts into field `f`. */
  function AfterCompletion(a: Action, effect: Value, now: nat, f: Field): Value {
    match f
    case StateField => StateOf(Done)
    case LastConfirmedEffect => effect
    case ResumeFrom => Null
    case Error => Null
    case LastUpdate => Time(now)
    case _ => Get(a, f)
  }

  /** What failing puts into field `f`. */
  function AfterFailure(a: Action, error: Value, toolEffect: Value, now: nat, f: Field): Value {
    match f
    case StateField => StateOf(Failed)
    case Error => error
    case LastToolEffect => toolEffect
    case ResumeFrom => Null
    case LastUpdate => Time(now)
    case _ => Get(a, f)
  }

  /** The stored action `i` is replaced by `b`, in the file and in the client's copy. */
  predicate Replaces(o: Outcome, l: seq<Action>, i: nat) {
    i < |l| && o.reply.Ok? && o.file == Some(l[i := o.reply.value]) && o.cache == l[i := o.reply.value]
  }

  /**
   * Resuming over an up-to-date copy succeeds exactly for an action that is INTERRUPTED or HOLD.
   * It is then RESUMED in the given process, from the given point, without an error, now.
   */
  lemma ResumeAnswers(l: seq<Action>, i: nat, processId: Value, resumeFrom: Value, now: nat)
    requires ValidLedger(l) && i < |l|
    ensures var a, o := l[i], Resume(Some(l), l, Get(l[i], ActionId), processId, resumeFrom, now);
            if Waiting(a) then
              Replaces(o, l, i) && forall f :: Get(o.reply.value, f) == AfterResume(a, processId, resumeFrom, now, f)
            else o == Outcome(Some(l), l, Err(NotResumable))
  {
    hide ValidAction, ValidLedger, Update, Get, IndexOf, KeepsImmutable, IsUpdateOf, AfterResume, ResumeChanges, Terminal, Waiting;
    var changes := ResumeChanges(processId, resumeFrom);
    LocatedAt(l, i);
    ChecksAre(l[i], changes);
    WaitingIsUnfinished(l[i]);
    ResumeChangesAre(l[i], processId, resumeFrom);
    UpdateAnswers(l, l, i, changes, now);
    var o := Resume(Some(l), l, Get(l[i], ActionId), processId, resumeFrom, now);
    if Waiting(l[i]) {
      ResumeIs(o.reply.value, l[i], processId, resumeFrom, now);
    }
  }

  lemma WaitingIsUnfinished(a: Action)
    ensures Waiting(a) ==> !Terminal(a)
  {
  }

  lemma ResumeChangesAre(a: Action, processId: Value, resumeFrom: Value)
    ensures var c := ResumeChanges(processId, resumeFrom);
            && ActionId !in c && StateField in c && c[StateField] == StateOf(Resumed)
            && KeepsImmutable(a, c) && EndsCleanly(a, c)
  {
  }

  lemma ResumeIs(b: Action, a: Action, processId: Value, resumeFrom: Value, now: nat)
    requires IsUpdateOf(b, a, ResumeChanges(processId, resumeFrom), now)
    ensures forall f :: Get(b, f) == AfterResume(a, processId, resumeFrom, now, f)
  {
    hide Get;
  }

  /** The pre-check looks at the client's own copy: what that does not hold, or holds as running, is refused unseen. */
  lemma ResumeTrustsCopy(file: Option<seq<Action>>, cache: seq<Action>, id: Value, processId: Value, resumeFrom: Value, now: nat)
    ensures var o := Resume(file, cache, id, processId, resumeFrom, now);
            && (!SomeNamed(cache, id) ==> o == Outcome(file, cache, Err(UnknownAction)))
            && (SomeNamed(cache, id) && (forall a: Action :: a in cache && Get(a, ActionId) == id ==> !Waiting(a)) ==>
                  o == Outcome(file, cache, Err(NotResumable)))
  {
    hide Update;
    NamedIff(cache, id);
    var i := IndexOf(cache, id);
    if i < |cache| {
      assert cache[i] in cache;
      ChecksAre(cache[i], map[]);
    }
  }

  /** Completing an unfinished action always succeeds; it is then DONE with the given effect, nothing left to resume. */
  lemma CompleteAnswers(l: seq<Action>, cache: seq<Action>, i: nat, effect: Value, now: nat)
    requires ValidLedger(l) && i < |l| && !Terminal(l[i])
    ensures var a, o := l[i], Update(Some(l), cache, Get(l[i], ActionId), DoneChanges(effect), now);
            Replaces(o, l, i) && forall f :: Get(o.reply.value, f) == AfterCompletion(a, effect, now, f)
  {
    hide ValidLedger, Update, Get, Terminal, KeepsImmutable, IsUpdateOf, AfterCompletion, DoneChanges;
    DoneChangesAre(l[i], effect);
    UpdateAnswers(l, cache, i, DoneChanges(effect), now);
    var o := Update(Some(l), cache, Get(l[i], ActionId), DoneChanges(effect), now);
    CompletionIs(o.reply.value, l[i], effect, now);
  }

  lemma DoneChangesAre(a: Action, effect: Value)
    ensures var c := DoneChanges(effect);
            && ActionId !in c && StateField in c && c[StateField] == StateOf(Done)
            && KeepsImmutable(a, c) && EndsCleanly(a, c)
  {
  }

  lemma CompletionIs(b: Action, a: Action, effect: Value, now: nat)
    requires IsUpdateOf(b, a, DoneChanges(effect), now)
    ensures forall f :: Get(b, f) == AfterCompletion(a, effect, now, f)
  {
    hide Get;
  }

  /** Failing an unfinished action always succeeds; it is then FAILED with the given error and tool effect. */
  lemma FailAnswers(l: seq<Action>, cache: seq<Action>, i: nat, error: Value, toolEffect: Value, now: nat)
    requires ValidLedger(l) && i < |l| && !Terminal(l[i])
    ensures var a, o := l[i], Update(Some(l), cache, Get(l[i], ActionId), FailChanges(error, toolEffect), now);
            Replaces(o, l, i) && forall f :: Get(o.reply.value, f) == AfterFailure(a, error, toolEffect, now, f)
  {
    hide ValidLedger, Update, Get, Terminal, KeepsImmutable, IsUpdateOf, AfterFailure, FailChanges;
    FailChangesAre(l[i], error, toolEffect);
    UpdateAnswers(l, cache, i, FailChanges(error, toolEffect), now);
    var o := Update(Some(l), cache, Get(l[i], ActionId), FailChanges(error, toolEffect), now);
    FailureIs(o.reply.value, l[i], error, toolEffect, now);
  }

  lemma FailChangesAre(a: Action, error: Value, toolEffect: Value)
    ensures var c := FailChanges(error, toolEffect);
            && ActionId !in c && StateField in c && c[StateField] == StateOf(Failed)
            && KeepsImmutable(a, c) && EndsCleanly(a, c)
  {
  }

  lemma FailureIs(b: Action, a: Action, error: Value, toolEffect: Value, now: nat)
    requires IsUpdateOf(b, a, FailChanges(error, toolEffect), now)
    ensures forall f :: Get(b, f) == AfterFailure(a, error, toolEffect, now, f)
  {
    hide Get;
  }

  // ----- opening, and who may call -----------------------------------------------------------------

  /** Opening a client, or asking a question, loads the file; over a bad file it raises and keeps what the client had. */
  lemma LoadingAnswers(s: Runs.System, client: nat, call: Runs.Call, now: nat)
    requires call.OpenCall? || call.QueryCall?
    ensures var o := Runs.Perform(s, Runs.Event(client, call, now));
            && o.file == s.file
            && (Load(s.file).Ok? ==> o.reply.Ok? && o.cache == Load(s.file).value)
            && (Load(s.file).Err? ==> o.reply == Err(BadFile) && o.cache == Runs.CacheOf(s, client))
  {
    hide ValidLedger;
  }

  /**
   * A step is an opening of a client, or a call of one that was opened; others do not happen.
   * Nothing changes but the file and the copy of the client that acts.
   */
  lemma StepAnswers(s: Runs.System, e: Runs.Event)
    ensures var s', o := Runs.Step(s, e), Runs.Perform(s, e);
            && (e.call.OpenCall? && Load(s.file).Err? ==> s' == s)
            && (!e.call.OpenCall? && e.client !in s.caches ==> s' == s)
            && ((e.call.OpenCall? && Load(s.file).Ok?) || (!e.call.OpenCall? && e.client in s.caches) ==>
                  s'.file == o.file && s'.caches == s.caches[e.client := o.cache])
  {
    hide ValidLedger, Begin, Update, Resume;
  }

  // ----- the lookup ----------------------------------------------------------------------------------

  /** What Python needs to compare sort keys. */
  predicate Sortable(l: seq<Action>) {
    forall a :: a in l ==> Get(a, ActionId).Text? && Get(a, LastUpdate).Time?
  }

  /** `a` was updated after `b`, or at the same time and has the greater id. */
  predicate Later(a: Action, b: Action) {
    && Get(a, ActionId).Text? && Get(b, ActionId).Text? && Get(a, LastUpdate).Time? && Get(b, LastUpdate).Time?
    && (Get(a, LastUpdate).t > Get(b, LastUpdate).t
        || (Get(a, LastUpdate).t == Get(b, LastUpdate).t && LexLess(Get(b, ActionId).text, Get(a, ActionId).text)))
  }

  lemma NotNewerTransitive(a: Action, b: Action, c: Action)
    requires Sortable([a, b, c]) && !Newer(b, a) && !Newer(c, b)
    ensures !Newer(c, a)
  {
    hide LexLess;
    assert a in [a, b, c] && b in [a, b, c] && c in [a, b, c];
    var x, y, z := Get(a, ActionId).text, Get(b, ActionId).text, Get(c, ActionId).text;
    LexTotal(x, y);
    LexTotal(y, z);
    if LexLess(x, z) {
      LexAsymmetric(x, z);
      if LexLess(z, y) {
        LexTransitive(x, z, y);
      }
    }
  }

  lemma NotNewerBoth(a: Action, b: Action)
    ensures !Newer(a, b) || !Newer(b, a)
  {
    hide LexLess;
    if Newer(a, b) && TimeOf(a) == TimeOf(b) {
      LexAsymmetric(Get(b, ActionId).text, Get(a, ActionId).text);
    }
  }

  predicate InOrder(l: seq<Action>) {
    forall i, j :: 0 <= i < j < |l| ==> !Newer(l[j], l[i])
  }

  lemma {:induction false} InsertSorts(a: Action, l: seq<Action>)
    requires InOrder(l) && Sortable([a] + l)
    ensures InOrder(Insert(a, l))
    ensures forall x :: x in Insert(a, l) <==> x == a || x in l
  {
    hide Newer;
    assert a in [a] + l && forall x :: x in l ==> x in [a] + l;
    if l != [] && Newer(l[0], a) {
      assert forall x :: x in [a] + l[1..] ==> x in [a] + l;
      InsertSorts(a, l[1..]);
      NotNewerBoth(l[0], a);
      var rest := Insert(a, l[1..]);
      forall j | 0 <= j < |rest|
        ensures !Newer(rest[j], l[0])
      {
        assert rest[j] in rest;
      }
    } else if l != [] {
      forall j | 0 <= j < |l|
        ensures !Newer(l[j], a)
      {
        NotNewerBoth(l[0], l[0]);
        NotNewerTransitive(a, l[0], l[j]);
      }
    }
  }

  lemma {:induction false} SortSorts(l: seq<Action>)
    requires Sortable(l)
    ensures InOrder(NewestFirst(l))
    ensures forall x :: x in NewestFirst(l) <==> x in l
  {
    hide Newer;
    if l != [] {
      SortSorts(l[1..]);
      InsertSorts(l[0], NewestFirst(l[1..]));
    }
  }

  lemma {:induction false} FirstDone(l: seq<Action>, u: Action)
    requires InOrder(l) && InDone(l) != [] && u in InDone(l)
    ensures u == InDone(l)[0] || !Newer(u, InDone(l)[0])
  {
    hide Newer, IsState;
    Runs.InDoneMembers(l);
    if IsState(l[0], {Done}) {
      var j :| 0 <= j < |l| && l[j] == u;
    } else {
      FirstDone(l[1..], u);
    }
  }

  /** The lookup considers the DONE actions of the key, or, if there is none, all actions of the key. */
  ghost predicate Considered(l: seq<Action>, key: Value, u: Action) {
    && u in l && Get(u, IdempotencyKey) == key
    && (SomeWith(l, key, {StateOf(Done)}) ==> Get(u, StateField) == StateOf(Done))
  }

  /** It finds nothing exactly if no action has the key, and otherwise the latest it considers, by time and then by id. */
  lemma FindAnswers(l: seq<Action>, key: Value)
    requires Sortable(l)
    ensures FindByKey(l, key) == None <==> forall u :: u in l ==> Get(u, IdempotencyKey) != key
    ensures FindByKey(l, key).Some? ==>
              && Considered(l, key, FindByKey(l, key).value)
              && forall u :: Considered(l, key, u) ==> !Later(u, FindByKey(l, key).value)
  {
    hide Newer, Get, LexLess;
    var m := WithKey(l, key);
    var sorted := NewestFirst(m);
    Runs.WithKeyMembers(l, key);
    SortSorts(m);
    Runs.InDoneMembers(sorted);
    DoneIff();
    if FindByKey(l, key).Some? {
      var a := FindByKey(l, key).value;
      assert a in sorted;
      forall u | Considered(l, key, u)
        ensures !Later(u, a)
      {
        LaterIsNewer(u, a);
        if InDone(sorted) != [] {
          assert InDone(sorted)[0] in InDone(sorted);
          FirstDone(sorted, u);
        } else {
          var j :| 0 <= j < |sorted| && sorted[j] == u;
        }
        NotNewerBoth(a, a);
      }
    }
  }

  lemma DoneIff()
    ensures forall a: Action :: IsState(a, {Done}) <==> Get(a, StateField) == StateOf(Done)
  {
  }

  lemma LaterIsNewer(u: Action, a: Action)
    ensures Later(u, a) ==> Newer(u, a)
  {
    hide LexLess;
  }
}
