/** What each call of the work ledger answers and stores, in terms of the stored fields alone. */
module WorkCalls {
  import opened Prelude
  import opened WorkLedger

  /** The fields every stored task has. */
  predicate HasAllFields(t: Task) {
    && TaskId in t && ParentIntent in t && Title in t && Description in t && StateField in t && Priority in t
    && D3Coordinate in t && Dependencies in t && Blockers in t && CompletionCriteria in t && D4Evidence in t
    && LastUpdate in t && NextAction in t
  }

  /** Complete, in a known state, with lists where lists belong. */
  predicate WellFormed(t: Task) {
    && HasAllFields(t) && t[StateField].StateOf?
    && t[Dependencies].Items? && t[Blockers].Items? && t[D4Evidence].Items?
  }

  /** Neither DONE nor sealed. */
  predicate Open(t: Task) {
    Get(t, StateField) != StateOf(Done) && Get(t, CompletionSeal) in {Null, Text(""), Items([])}
  }

  /**
   * The edited list is saved if the client still holds the file's digest; otherwise the call ends
   * in a drift error, the file stays, and only the client's copy keeps the edit.
   */
  ghost predicate SavesAs(o: Outcome, file: Doc, c: Copy, ts: seq<Task>, t: Task, now: nat) {
    if file == c.loaded then
      o.file == Doc(ts, now) && o.copy == Copy(o.file, o.file) && o.reply == Ok(t)
    else
      o.file == file && o.copy == Copy(Doc(ts, c.data.stamp), c.loaded) && o.reply == Err(PreimageDrift)
  }

  lemma LoadsIff(ts: seq<Task>)
    ensures ValidTasks(ts) <==>
              && (forall t :: t in ts ==> WellFormed(t))
              && (forall i, j :: 0 <= i < j < |ts| ==> Get(ts[i], TaskId) != Get(ts[j], TaskId))
  {
    hide ValidTask, WellFormed, Get;
    forall t
      ensures ValidTask(t) <==> WellFormed(t)
    {
      ValidTaskIff(t);
    }
    assert forall i :: 0 <= i < |ts| ==> ts[i] in ts;
  }

  lemma ValidTaskIff(t: Task)
    ensures ValidTask(t) <==> WellFormed(t)
  {
    assert REQUIRED <= t.Keys <==> HasAllFields(t);
  }

  lemma LocatedAt(ts: seq<Task>, i: nat)
    requires ValidTasks(ts) && i < |ts|
    ensures IndexOf(ts, Get(ts[i], TaskId)) == i && ValidTask(ts[i])
  {
    hide ValidTask, Get;
  }

  lemma NamedIff(ts: seq<Task>, id: Value)
    ensures (exists t :: t in ts && Get(t, TaskId) == id) <==> IndexOf(ts, id) < |ts|
  {
    hide Get;
  }

  // ----- create -------------------------------------------------------------------------------

  /** Creating a task: it must be complete and its id new; without an update time it gets the present one. */
  lemma CreateAnswers(file: Doc, c: Copy, t: Task, now: nat)
    ensures var o, ts := Create(file, c, t, now), c.data.tasks;
            var u := if LastUpdate in t then t else t[LastUpdate := Stamp(now)];
            if !WellFormed(u) then o == Outcome(file, c, Err(InvalidTask))
            else if exists v :: v in ts && Get(v, TaskId) == Get(u, TaskId) then o == Outcome(file, c, Err(TaskIdExists))
            else SavesAs(o, file, c, ts + [u], u, now)
  {
    hide ValidTask, WellFormed, IndexOf;
    var u := if LastUpdate in t then t else t[LastUpdate := Stamp(now)];
    ValidTaskIff(u);
    NamedIff(c.data.tasks, Get(u, TaskId));
  }

  // ----- update ---------------------------------------------------------------------------------

  /** The changes are in, the update time is now, and nothing else is different. */
  ghost predicate IsUpdateOf(u: Task, t: Task, changes: map<Field, Value>, now: nat) {
    && u.Keys == t.Keys + changes.Keys + {LastUpdate}
    && forall f :: Get(u, f) == if f == LastUpdate then Stamp(now) else if f in changes then changes[f] else Get(t, f)
  }

  predicate ChangesNothing(t: Task, changes: map<Field, Value>) {
    forall f :: f in changes ==> changes[f] == Get(t, f)
  }

  predicate ListsStayLists(changes: map<Field, Value>) {
    && (Dependencies in changes ==> changes[Dependencies].Items?)
    && (Blockers in changes ==> changes[Blockers].Items?)
    && (D4Evidence in changes ==> changes[D4Evidence].Items?)
  }

  /**
   * Updating a stored task. A closed one only accepts what it already says. An open one is edited
   * in the copy first; a non-list in a list field is then refused, anything else is saved.
   */
  lemma UpdateAnswers(file: Doc, c: Copy, i: nat, changes: map<Field, Value>, now: nat)
    requires ValidTasks(c.data.tasks) && i < |c.data.tasks|
    requires TaskId in changes ==> changes[TaskId] == Get(c.data.tasks[i], TaskId)
    requires StateField in changes ==> changes[StateField].StateOf?
    ensures var ts := c.data.tasks;
            var o := Update(file, c, Get(ts[i], TaskId), changes, now);
            if !Open(ts[i]) then
              o == Outcome(file, c, if ChangesNothing(ts[i], changes) then Ok(ts[i]) else Err(ClosedTask))
            else
              && |o.copy.data.tasks| == |ts|
              && var u := o.copy.data.tasks[i];
                 && IsUpdateOf(u, ts[i], changes, now)
                 && if ListsStayLists(changes) then SavesAs(o, file, c, ts[i := u], u, now)
                    else o == Outcome(file, Copy(Doc(ts[i := u], c.data.stamp), c.loaded), Err(InvalidTask))
  {
    hide ValidTask, Updated, Effective, IsUpdateOf, ListsStayLists, TypedChanges, IndexOf, ValidTasks, ChangesNothing, Closed, Open;
    var t := c.data.tasks[i];
    LocatedAt(c.data.tasks, i);
    ChecksAre(t, changes);
    UpdatedIs(t, changes, now);
    UpdatedValidIff(t, changes, now);
  }

  lemma ChecksAre(t: Task, changes: map<Field, Value>)
    ensures Closed(t) <==> !Open(t)
    ensures Effective(t, changes) <==> !ChangesNothing(t, changes)
    ensures TypedChanges(changes) <==> ListsStayLists(changes)
  {
    assert Dependencies in LIST_FIELDS && Blockers in LIST_FIELDS && D4Evidence in LIST_FIELDS;
  }

  lemma UpdatedIs(t: Task, changes: map<Field, Value>, now: nat)
    ensures IsUpdateOf(Updated(t, changes, now), t, changes, now)
  {
  }

  /** The refusals that come before any task is looked at, and those for a task nobody created. */
  lemma UnknownRefused(file: Doc, c: Copy, id: Value, changes: map<Field, Value>, evidence: Option<Value>, head: Option<string>,
                       blocker: Value, now: nat)
    ensures TaskId in changes && changes[TaskId] != id ==>
              Update(file, c, id, changes, now) == Outcome(file, c, Err(TaskIdIsImmutable))
    ensures (TaskId in changes ==> changes[TaskId] == id) && StateField in changes && !changes[StateField].StateOf? ==>
              Update(file, c, id, changes, now) == Outcome(file, c, Err(InvalidState))
    ensures !(exists t :: t in c.data.tasks && Get(t, TaskId) == id) ==>
              && ((TaskId in changes ==> changes[TaskId] == id) && (StateField in changes ==> changes[StateField].StateOf?) ==>
                    Update(file, c, id, changes, now) == Outcome(file, c, Err(UnknownTask)))
              && Complete(file, c, id, evidence, head, now) == Outcome(file, c, Err(UnknownTask))
              && Block(file, c, id, blocker, now) == Outcome(file, c, Err(UnknownTask))
  {
    hide ValidTask, Closed, Updated, Effective, DoneChanges, BlockChanges, AsList;
    NamedIff(c.data.tasks, id);
  }

  // ----- complete ---------------------------------------------------------------------------------

  function EvidenceAfter(t: Task, evidence: Option<Value>): seq<Value>
    requires Get(t, D4Evidence).Items?
  {
    Get(t, D4Evidence).items + (if evidence.Some? then [evidence.value] else [])
  }

  /** What completing puts into field `f` of `t`: the fields that are not named keep their values. */
  function Completed(t: Task, evidence: Option<Value>, head: Option<string>, now: nat, f: Field): Value
    requires Get(t, D4Evidence).Items?
  {
    var h := if head == None || head == Some("") then "UNSPECIFIED" else head.value;
    match f
    case StateField => StateOf(Done)
    case D4Evidence => Items(EvidenceAfter(t, evidence))
    case Blockers => Items([])
    case NextAction => Text("NONE")
    case ClosedAt => Stamp(now)
    case ClosedHead => Text(h)
    case CompletionSeal => Seal(now, h, ScopeOf(t), DigestOf(Items(EvidenceAfter(t, evidence))))
    case LastUpdate => Stamp(now)
    case _ => Get(t, f)
  }

  ghost predicate IsCompletion(u: Task, t: Task, evidence: Option<Value>, head: Option<string>, now: nat)
    requires Get(t, D4Evidence).Items?
  {
    forall f :: Get(u, f) == Completed(t, evidence, head, now, f)
  }

  /**
   * Completing a task: refused exactly if it is closed. Otherwise it is DONE, the given evidence is
   * the last of its evidence, nothing blocks it, and it is sealed at this time under the given head
   * over its scope and all of its evidence.
   */
  lemma CompleteAnswers(file: Doc, c: Copy, i: nat, evidence: Option<Value>, head: Option<string>, now: nat)
    requires ValidTasks(c.data.tasks) && i < |c.data.tasks|
    ensures var ts := c.data.tasks;
            var t, o := ts[i], Complete(file, c, Get(ts[i], TaskId), evidence, head, now);
            && Get(t, D4Evidence).Items?
            && if !Open(t) then o == Outcome(file, c, Err(ClosedTask))
               else
                 && |o.copy.data.tasks| == |ts|
                 && var u := o.copy.data.tasks[i];
                    SavesAs(o, file, c, ts[i := u], u, now) && IsCompletion(u, t, evidence, head, now)
  {
    hide ValidTask, Update, IndexOf, ValidTasks, DoneChanges, Closed, Open, ListsStayLists, ChangesNothing, SavesAs, Evidence,
      IsUpdateOf, IsCompletion, Get;
    var t := c.data.tasks[i];
    LocatedAt(c.data.tasks, i);
    ListsAre(t);
    ChecksAre(t, map[]);
    DoneChangesAre(t, evidence, head, now);
    UpdateAnswers(file, c, i, DoneChanges(t, evidence, head, now), now);
    var o := Complete(file, c, Get(t, TaskId), evidence, head, now);
    if Open(t) {
      UpdateIsCompletion(o.copy.data.tasks[i], t, evidence, head, now);
    }
  }

  lemma UpdateIsCompletion(u: Task, t: Task, evidence: Option<Value>, head: Option<string>, now: nat)
    requires Get(t, D4Evidence).Items? && IsUpdateOf(u, t, DoneChanges(t, evidence, head, now), now)
    ensures IsCompletion(u, t, evidence, head, now)
  {
    hide DoneChanges, Get, Completed;
    forall f
      ensures Get(u, f) == Completed(t, evidence, head, now, f)
    {
      DoneChangesPut(t, evidence, head, now, f);
    }
  }

  lemma DoneChangesPut(t: Task, evidence: Option<Value>, head: Option<string>, now: nat, f: Field)
    requires Get(t, D4Evidence).Items?
    ensures var c := DoneChanges(t, evidence, head, now);
            (if f == LastUpdate then Stamp(now) else if f in c then c[f] else Get(t, f)) == Completed(t, evidence, head, now, f)
  {
    hide DoneChanges, Get, EvidenceAfter, ScopeOf;
    DoneChangesAre(t, evidence, head, now);
  }

  lemma ListsAre(t: Task)
    requires ValidTask(t)
    ensures Get(t, D4Evidence).Items? && Get(t, Blockers).Items? && Get(t, Dependencies).Items?
  {
  }

  lemma DoneChangesAre(t: Task, evidence: Option<Value>, head: Option<string>, now: nat)
    requires Get(t, D4Evidence).Items?
    ensures var c := DoneChanges(t, evidence, head, now);
            var h := if head == None || head == Some("") then "UNSPECIFIED" else head.value;
            && c.Keys == {StateField, D4Evidence, Blockers, NextAction, ClosedAt, ClosedHead, CompletionSeal}
            && ListsStayLists(c) && TaskId !in c && StateField in c && c[StateField].StateOf?
            && c[StateField] == StateOf(Done) && c[D4Evidence] == Items(EvidenceAfter(t, evidence))
            && c[Blockers] == Items([]) && c[NextAction] == Text("NONE")
            && c[ClosedAt] == Stamp(now) && c[ClosedHead] == Text(h)
            && c[CompletionSeal] == Seal(now, h, ScopeOf(t), DigestOf(Items(EvidenceAfter(t, evidence))))
  {
    hide ScopeOf;
  }

  /** Two tasks have the same scope digest exactly if they agree on all eight scope fields. */
  lemma ScopeTells(t: Task, u: Task)
    ensures ScopeOf(t) == ScopeOf(u) <==>
              && Get(t, TaskId) == Get(u, TaskId) && Get(t, ParentIntent) == Get(u, ParentIntent)
              && Get(t, Title) == Get(u, Title) && Get(t, Description) == Get(u, Description)
              && Get(t, Priority) == Get(u, Priority) && Get(t, D3Coordinate) == Get(u, D3Coordinate)
              && Get(t, Dependencies) == Get(u, Dependencies) && Get(t, CompletionCriteria) == Get(u, CompletionCriteria)
  {
    hide Get;
    var a := [Get(t, TaskId), Get(t, ParentIntent), Get(t, Title), Get(t, Description), Get(t, Priority),
              Get(t, D3Coordinate), Get(t, Dependencies), Get(t, CompletionCriteria)];
    var b := [Get(u, TaskId), Get(u, ParentIntent), Get(u, Title), Get(u, Description), Get(u, Priority),
              Get(u, D3Coordinate), Get(u, Dependencies), Get(u, CompletionCriteria)];
    if ScopeOf(t) == ScopeOf(u) {
      assert a == b;
      assert a[0] == b[0] && a[1] == b[1] && a[2] == b[2] && a[3] == b[3];
      assert a[4] == b[4] && a[5] == b[5] && a[6] == b[6] && a[7] == b[7];
    }
  }

  // ----- reopen -----------------------------------------------------------------------------------

  /** The characters `str.strip` takes off, by code point. */
  lemma SpacesAre(ch: char)
    ensures IsSpace(ch) <==>
              (ch as int) in [0x09, 0x0a, 0x0b, 0x0c, 0x0d, 0x1c, 0x1d, 0x1e, 0x1f, 0x20, 0x85, 0xa0, 0x1680,
                              0x2000, 0x2001, 0x2002, 0x2003, 0x2004, 0x2005, 0x2006, 0x2007, 0x2008, 0x2009, 0x200a,
                              0x2028, 0x2029, 0x202f, 0x205f, 0x3000]
  {
  }

  /** Something is left of the text after `strip`. */
  predicate Says(s: string) {
    exists ch :: ch in s && !IsSpace(ch)
  }

  /**
   * Reopening a task: refused without reason, authority and a real next action, or unless it is
   * DONE. Otherwise it is TODO again, unsealed and unblocked, and its history has grown by one
   * entry with the seal it had, or a digest of what it was if it had none.
   */
  lemma ReopenAnswers(file: Doc, c: Copy, i: nat, reason: string, authority: string, next: string, now: nat)
    requires ValidTasks(c.data.tasks) && i < |c.data.tasks|
    requires ReopenHistory in c.data.tasks[i] ==> c.data.tasks[i][ReopenHistory].Items?
    ensures var ts := c.data.tasks;
            var t, o := ts[i], Reopen(file, c, Get(ts[i], TaskId), reason, authority, next, now);
            var history := if ReopenHistory in t then t[ReopenHistory].items else [];
            var seal := if Get(t, CompletionSeal) == Null then Legacy(t) else Get(t, CompletionSeal);
            if !Says(reason) || !Says(authority) || !Says(next) || next == "NONE" then
              o == Outcome(file, c, Err(ReopenArgument))
            else if Get(t, StateField) != StateOf(Done) then o == Outcome(file, c, Err(NotDone))
            else
              && |o.copy.data.tasks| == |ts|
              && var u := o.copy.data.tasks[i];
                 && SavesAs(o, file, c, ts[i := u], u, now)
                 && u.Keys == t.Keys + {ReopenHistory} - {CompletionSeal, ClosedAt, ClosedHead}
                 && forall f :: Get(u, f) ==
                                match f
                                case StateField => StateOf(Todo)
                                case NextAction => Text(next)
                                case Blockers => Items([])
                                case ReopenHistory => Items(history + [Reopened(now, reason, authority, seal)])
                                case CompletionSeal => Null
                                case ClosedAt => Null
                                case ClosedHead => Null
                                case LastUpdate => Stamp(now)
                                case _ => Get(t, f)
  {
    hide ValidTask, IndexOf, ValidTasks, ReopenedTask, Blank, Says, SavesAs;
    var t := c.data.tasks[i];
    LocatedAt(c.data.tasks, i);
    SaysIff(reason);
    SaysIff(authority);
    SaysIff(next);
    var history := if ReopenHistory in t then t[ReopenHistory].items else [];
    ReopenedIsValid(t, history, reason, authority, next, now);
    ReopenedIs(t, history, reason, authority, next, now);
    SaveIs(file, c, c.data.tasks[i := ReopenedTask(t, history, reason, authority, next, now)],
           ReopenedTask(t, history, reason, authority, next, now), now);
  }

  lemma SaveIs(file: Doc, c: Copy, ts: seq<Task>, t: Task, now: nat)
    ensures SavesAs(Save(file, c, ts, t, now), file, c, ts, t, now)
  {
  }

  lemma SaysIff(s: string)
    ensures Says(s) <==> !Blank(s)
  {
  }

  lemma ReopenedIs(t: Task, history: seq<Value>, reason: string, authority: string, next: string, now: nat)
    requires ValidTask(t)
    ensures var u := ReopenedTask(t, history, reason, authority, next, now);
            var seal := if Get(t, CompletionSeal) == Null then Legacy(t) else Get(t, CompletionSeal);
            && u.Keys == t.Keys + {ReopenHistory} - {CompletionSeal, ClosedAt, ClosedHead}
            && forall f :: Get(u, f) ==
                           match f
                           case StateField => StateOf(Todo)
                           case NextAction => Text(next)
                           case Blockers => Items([])
                           case ReopenHistory => Items(history + [Reopened(now, reason, authority, seal)])
                           case CompletionSeal => Null
                           case ClosedAt => Null
                           case ClosedHead => Null
                           case LastUpdate => Stamp(now)
                           case _ => Get(t, f)
  {
  }

  /** A reopening of a task nobody created, and one whose history is not a list. */
  lemma ReopenRefuses(file: Doc, c: Copy, id: Value, reason: string, authority: string, next: string, now: nat)
    requires Says(reason) && Says(authority) && Says(next) && next != "NONE"
    ensures !(exists t :: t in c.data.tasks && Get(t, TaskId) == id) ==>
              Reopen(file, c, id, reason, authority, next, now) == Outcome(file, c, Err(UnknownTask))
    ensures forall i :: 0 <= i < |c.data.tasks| && ValidTasks(c.data.tasks) && Get(c.data.tasks[i], TaskId) == id
                        && Get(c.data.tasks[i], StateField) == StateOf(Done)
                        && ReopenHistory in c.data.tasks[i] && !c.data.tasks[i][ReopenHistory].Items? ==>
              Reopen(file, c, id, reason, authority, next, now) == Outcome(file, c, Err(TypeFault))
  {
    hide ValidTask, IndexOf, ValidTasks, ReopenedTask, Blank, Says;
    NamedIff(c.data.tasks, id);
    SaysIff(reason);
    SaysIff(authority);
    SaysIff(next);
    forall i | 0 <= i < |c.data.tasks| && ValidTasks(c.data.tasks) && Get(c.data.tasks[i], TaskId) == id
      ensures IndexOf(c.data.tasks, id) == i
    {
      LocatedAt(c.data.tasks, i);
    }
  }

  // ----- block ------------------------------------------------------------------------------------

  /** What blocking puts into field `f`. */
  function AfterBlocking(t: Task, before: seq<Value>, blocker: Value, now: nat, f: Field): Value {
    match f
    case StateField => StateOf(Blocked)
    case Blockers => Items(if blocker in before then before else before + [blocker])
    case LastUpdate => Stamp(now)
    case _ => Get(t, f)
  }

  /** Blocking an open task: it is BLOCKED, and the blocker is the last of its blockers unless it was one before. */
  lemma BlockAnswers(file: Doc, c: Copy, i: nat, blocker: Value, now: nat)
    requires ValidTasks(c.data.tasks) && i < |c.data.tasks|
    ensures var ts := c.data.tasks;
            var t, o := ts[i], Block(file, c, Get(ts[i], TaskId), blocker, now);
            && Get(t, Blockers).Items?
            && var before := Get(t, Blockers).items;
               if !Open(t) then
                 o == Outcome(file, c, if Get(t, StateField) == StateOf(Blocked) && blocker in before then Ok(t) else Err(ClosedTask))
               else
                 && |o.copy.data.tasks| == |ts|
                 && var u := o.copy.data.tasks[i];
                    SavesAs(o, file, c, ts[i := u], u, now) && forall f :: Get(u, f) == AfterBlocking(t, before, blocker, now, f)
  {
    hide ValidTask, Update, IndexOf, ValidTasks, Open, ListsStayLists, ChangesNothing, SavesAs, BlockChanges, IsUpdateOf, AfterBlocking, Get;
    var t := c.data.tasks[i];
    LocatedAt(c.data.tasks, i);
    ListsAre(t);
    var before := Get(t, Blockers).items;
    BlockChangesAre(t, before, blocker);
    UpdateAnswers(file, c, i, BlockChanges(before, blocker), now);
    var o := Block(file, c, Get(t, TaskId), blocker, now);
    if Open(t) {
      BlockingIs(o.copy.data.tasks[i], t, before, blocker, now);
    }
  }

  lemma BlockingIs(u: Task, t: Task, before: seq<Value>, blocker: Value, now: nat)
    requires IsUpdateOf(u, t, BlockChanges(before, blocker), now)
    ensures forall f :: Get(u, f) == AfterBlocking(t, before, blocker, now, f)
  {
    hide Get;
  }

  lemma BlockChangesAre(t: Task, before: seq<Value>, blocker: Value)
    requires Get(t, Blockers) == Items(before)
    ensures ListsStayLists(BlockChanges(before, blocker)) && TaskId !in BlockChanges(before, blocker)
    ensures StateField in BlockChanges(before, blocker) && BlockChanges(before, blocker)[StateField].StateOf?
    ensures ChangesNothing(t, BlockChanges(before, blocker)) <==> Get(t, StateField) == StateOf(Blocked) && blocker in before
  {
    var c := BlockChanges(before, blocker);
    assert StateField in c && Blockers in c;
    if blocker !in before {
      assert c[Blockers] == Items(before + [blocker]) && |before + [blocker]| != |before|;
    }
  }

  // ----- calls over a copy that a rejected update spoiled ---------------------------------------------

  /** What `list` makes of values that are not lists: the letters of a string, the keys of a dictionary, nothing of null. */
  lemma ListingAnswers(s: string, v: map<Field, Value>, n: nat, h: string, x: Value, y: Value)
    ensures AsList(Null) == None
    ensures AsList(Text(s)).Some? && |AsList(Text(s)).value| == |s|
    ensures forall i :: 0 <= i < |s| ==> AsList(Text(s)).value[i] == Text([s[i]])
    ensures AsList(Seal(n, h, x, y)) ==
            Some([Text("CLOSED_AT"), Text("CLOSED_HEAD"), Text("SCOPE_SHA256"), Text("EVIDENCE_SHA256")])
    ensures AsList(Legacy(v)) == Some([Text("LEGACY_UNSEALED"), Text("TASK_STATE_SHA256")])
    ensures AsList(Reopened(n, h, s, x)) ==
            Some([Text("REOPENED_AT"), Text("REASON"), Text("AUTHORITY_REF"), Text("PREVIOUS_COMPLETION_SEAL")])
  {
  }

  /** A state is listed like the text that stands for it. */
  lemma StatesAreTexts()
    ensures AsList(StateOf(Todo)) == AsList(Text("TODO")) && AsList(StateOf(Doing)) == AsList(Text("DOING"))
    ensures AsList(StateOf(Blocked)) == AsList(Text("BLOCKED")) && AsList(StateOf(State.Hold)) == AsList(Text("HOLD"))
    ensures AsList(StateOf(Done)) == AsList(Text("DONE")) && AsList(StateOf(Cancelled)) == AsList(Text("CANCELLED"))
  {
  }

  /** Blocking a task whose blockers are not a list makes a list of them, or fails where there is none to make. */
  lemma BlockSpoiled(file: Doc, c: Copy, id: Value, blocker: Value, now: nat)
    requires IndexOf(c.data.tasks, id) < |c.data.tasks| && Open(c.data.tasks[IndexOf(c.data.tasks, id)])
    ensures var ts, i := c.data.tasks, IndexOf(c.data.tasks, id);
            var l, o := AsList(Get(ts[i], Blockers)), Block(file, c, id, blocker, now);
            && (l == None ==> o == Outcome(file, c, Err(TypeFault)))
            && (l.Some? ==>
                  && |o.copy.data.tasks| == |ts| && Get(o.copy.data.tasks[i], StateField) == StateOf(Blocked)
                  && Get(o.copy.data.tasks[i], Blockers) == Items(if blocker in l.value then l.value else l.value + [blocker]))
  {
    hide ValidTask, AsList, IndexOf;
    ChecksAre(c.data.tasks[IndexOf(c.data.tasks, id)], map[]);
  }

  /** Evidence cannot be added to what is not a list; without any, the spoiled field is only found out at the end. */
  lemma CompleteSpoiled(file: Doc, c: Copy, id: Value, evidence: Option<Value>, head: Option<string>, now: nat)
    requires IndexOf(c.data.tasks, id) < |c.data.tasks| && Open(c.data.tasks[IndexOf(c.data.tasks, id)])
    requires !Get(c.data.tasks[IndexOf(c.data.tasks, id)], D4Evidence).Items?
    ensures var o := Complete(file, c, id, evidence, head, now);
            && (evidence.Some? ==> o == Outcome(file, c, Err(TypeFault)))
            && (evidence == None ==> o.file == file && o.reply == Err(InvalidTask) && o.copy != c)
  {
    hide IndexOf, ScopeOf;
    var t := c.data.tasks[IndexOf(c.data.tasks, id)];
    ChecksAre(t, map[]);
    if evidence == None {
      var u := Updated(t, DoneChanges(t, evidence, head, now), now);
      assert Get(u, D4Evidence) == Get(t, D4Evidence) && Get(u, StateField) == StateOf(Done);
      assert u != t;
    }
  }

  /** Reopening mends the blockers; the other lists must be lists already. */
  lemma ReopenSpoiled(file: Doc, c: Copy, id: Value, reason: string, authority: string, next: string, now: nat)
    requires Says(reason) && Says(authority) && Says(next) && next != "NONE"
    requires IndexOf(c.data.tasks, id) < |c.data.tasks|
    requires var t := c.data.tasks[IndexOf(c.data.tasks, id)];
             HasAllFields(t) && t[StateField] == StateOf(Done) && ReopenHistory !in t
    ensures var t := c.data.tasks[IndexOf(c.data.tasks, id)];
            var o := Reopen(file, c, id, reason, authority, next, now);
            o.reply == Err(InvalidTask) <==> !t[Dependencies].Items? || !t[D4Evidence].Items?
  {
    hide ValidTask, IndexOf, Blank, Says;
    SaysIff(reason);
    SaysIff(authority);
    SaysIff(next);
    var t := c.data.tasks[IndexOf(c.data.tasks, id)];
    ReopenedValidIff(t, reason, authority, next, now);
  }

  lemma ReopenedValidIff(t: Task, reason: string, authority: string, next: string, now: nat)
    requires HasAllFields(t)
    ensures ValidTask(ReopenedTask(t, [], reason, authority, next, now)) <==> t[Dependencies].Items? && t[D4Evidence].Items?
  {
  }
}
