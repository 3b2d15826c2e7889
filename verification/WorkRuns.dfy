/** Whole runs of the work ledger: any clients, any calls, any interleaving. */
module WorkRuns {
  import opened Prelude
  import opened WorkLedger

  /** Opening a client reads the file twice: once for its data, once for its digest. */
  datatype Event =
    | ReadData(client: nat)
    | ReadDigest(client: nat)
    | Invoke(client: nat, call: Call, now: nat)

  datatype System = System(file: Doc, opening: map<nat, Doc>, clients: map<nat, Copy>)

  function Step(s: System, e: Event): System {
    match e
    case ReadData(c) =>
      if ValidTasks(s.file.tasks) then s.(opening := s.opening[c := s.file]) else s
    case ReadDigest(c) =>
      if c in s.opening then
        System(s.file, s.opening - {c}, s.clients[c := Copy(s.opening[c], s.file)])
      else s
    case Invoke(c, call, now) =>
      if c in s.clients then
        var o := Perform(call, s.file, s.clients[c], now);
        s.(file := o.file, clients := s.clients[c := o.copy])
      else s
  }

  function Run(f: Doc, es: seq<Event>): System {
    if es == [] then System(f, map[], map[]) else Step(Run(f, es[..|es| - 1]), es[|es| - 1])
  }

  /** No save falls between the two reads of an opening. */
  predicate Quiet(s: System, e: Event) {
    e.ReadDigest? && e.client in s.opening ==> s.opening[e.client] == s.file
  }

  /** No opening of client `c` is raced. */
  predicate OpensQuietly(f: Doc, es: seq<Event>, c: nat) {
    es == [] ||
    (OpensQuietly(f, es[..|es| - 1], c) && (es[|es| - 1] == ReadDigest(c) ==> Quiet(Run(f, es[..|es| - 1]), es[|es| - 1])))
  }

  /** The latest clock reading of a run. */
  function Latest(f: Doc, es: seq<Event>): nat {
    if es == [] then f.stamp
    else if es[|es| - 1].Invoke? then es[|es| - 1].now
    else Latest(f, es[..|es| - 1])
  }

  /** Readings strictly increase, so no file content ever comes back. */
  predicate Clocked(f: Doc, es: seq<Event>) {
    es == [] ||
    (Clocked(f, es[..|es| - 1]) && (es[|es| - 1].Invoke? ==> es[|es| - 1].now > Latest(f, es[..|es| - 1])))
  }

  predicate TypedEvent(e: Event) {
    e.Invoke? ==> Typed(e.call)
  }

  /** Client `c` gives list fields nothing but lists. */
  predicate CallsTyped(es: seq<Event>, c: nat) {
    forall i :: 0 <= i < |es| && es[i].client == c ==> TypedEvent(es[i])
  }

  predicate TypedRun(es: seq<Event>) {
    forall i :: 0 <= i < |es| ==> TypedEvent(es[i])
  }

  lemma RunSnoc(f: Doc, es: seq<Event>, more: seq<Event>)
    requires more != []
    ensures Run(f, es + more) == Step(Run(f, es + more[..|more| - 1]), more[|more| - 1])
    ensures Clocked(f, es + more) ==> Clocked(f, es + more[..|more| - 1])
  {
    assert (es + more)[..|es + more| - 1] == es + more[..|more| - 1];
  }

  // ----- one call ---------------------------------------------------------------------------

  /** The call replaced the file by the client's edited copy. */
  predicate Saved(file: Doc, c: Copy, o: Outcome, now: nat) {
    file == c.loaded && o.reply.Ok? && o.file.stamp == now && o.copy == Copy(o.file, o.file)
  }

  /** A call either saves or leaves the file and the remembered digest alone. */
  lemma SavesOrLeaves(call: Call, file: Doc, c: Copy, now: nat)
    ensures var o := Perform(call, file, c, now);
            Saved(file, c, o, now) || (o.file == file && o.copy.loaded == c.loaded)
  {
    hide ValidTask, Closed, Updated, ReopenedTask, BlockChanges, AsList, DoneChanges, Effective, Blank, History;
  }

  /** The call saved, or left file and copy as they were. */
  predicate SavedOrNothing(file: Doc, c: Copy, o: Outcome, now: nat) {
    Saved(file, c, o, now) || (o.file == file && o.copy == c)
  }

  lemma TypedUpdateSavesOrNot(file: Doc, c: Copy, id: Value, changes: map<Field, Value>, now: nat)
    requires file == c.loaded && ValidTasks(c.data.tasks) && TypedChanges(changes)
    ensures SavedOrNothing(file, c, Update(file, c, id, changes, now), now)
  {
    hide ValidTask, Closed, Updated, Effective, TypedChanges, UniqueIds;
    var i := IndexOf(c.data.tasks, id);
    if i < |c.data.tasks| && (StateField in changes ==> changes[StateField].StateOf?) {
      UpdatedValidIff(c.data.tasks[i], changes, now);
    }
  }

  /** A client that holds the current digest keeps its copy untouched when a typed call does not save. */
  lemma RefusedKeepsCopy(call: Call, file: Doc, c: Copy, now: nat)
    requires file == c.loaded && ValidTasks(c.data.tasks) && Typed(call)
    ensures SavedOrNothing(file, c, Perform(call, file, c, now), now)
  {
    hide ValidTask, Closed, Updated, ReopenedTask, Effective, Blank, History, Evidence, AsList, UniqueIds, Update;
    var ts := c.data.tasks;
    match call
    case CreateCall(t) =>
    case UpdateCall(id, changes) =>
      TypedUpdateSavesOrNot(file, c, id, changes, now);
    case CompleteCall(id, evidence, head) =>
      var i := IndexOf(ts, id);
      if i < |ts| {
        DoneChangesTyped(ts[i], evidence, head, now);
        TypedUpdateSavesOrNot(file, c, id, DoneChanges(ts[i], evidence, head, now), now);
      }
    case ReopenCall(id, reason, authority, next) =>
      var i := IndexOf(ts, id);
      if i < |ts| && History(ts[i]).Some? {
        ReopenedIsValid(ts[i], History(ts[i]).value, reason, authority, next, now);
      }
    case BlockCall(id, blocker) =>
      var i := IndexOf(ts, id);
      if i < |ts| && AsList(Get(ts[i], Blockers)).Some? {
        TypedUpdateSavesOrNot(file, c, id, BlockChanges(AsList(Get(ts[i], Blockers)).value, blocker), now);
      }
  }

  // ----- what a call does to the client's copy ------------------------------------------------------

  /** The slot of task `id` is edited, if anything; ids stay. */
  predicate EditsCopy(ts: seq<Task>, ts': seq<Task>, id: Value) {
    var i := IndexOf(ts, id);
    ts' == ts || (i < |ts| == |ts'| && ts' == ts[i := ts'[i]] && Get(ts'[i], TaskId) == Get(ts[i], TaskId))
  }

  /** A valid task with a new id is appended, if anything. */
  predicate AppendsToCopy(ts: seq<Task>, ts': seq<Task>) {
    ts' == ts ||
    (|ts'| == |ts| + 1 && ts' == ts + [ts'[|ts|]] && ValidTask(ts'[|ts|]) && IndexOf(ts, Get(ts'[|ts|], TaskId)) == |ts|)
  }

  /** What is in the file after a call is what was there, or the client's copy. */
  predicate FileOrCopy(file: Doc, o: Outcome) {
    o.file == file || o.file == o.copy.data
  }

  lemma UpdateOnCopy(file: Doc, c: Copy, id: Value, changes: map<Field, Value>, now: nat)
    ensures var o := Update(file, c, id, changes, now);
            EditsCopy(c.data.tasks, o.copy.data.tasks, id) && FileOrCopy(file, o)
  {
    hide ValidTask, Closed, Effective;
  }

  lemma CallOnCopy(call: Call, file: Doc, c: Copy, now: nat)
    ensures var o := Perform(call, file, c, now);
            && FileOrCopy(file, o)
            && if call.CreateCall? then AppendsToCopy(c.data.tasks, o.copy.data.tasks)
               else EditsCopy(c.data.tasks, o.copy.data.tasks, call.id)
  {
    hide ValidTask, Closed, Updated, ReopenedTask, Effective, Blank, History, Update, DoneChanges, BlockChanges, AsList;
    var ts := c.data.tasks;
    var i := IndexOf(ts, if call.CreateCall? then Null else call.id);
    match call
    case CreateCall(t) =>
    case UpdateCall(id, changes) => UpdateOnCopy(file, c, id, changes, now);
    case CompleteCall(id, evidence, head) =>
      if i < |ts| {
        UpdateOnCopy(file, c, id, DoneChanges(ts[i], evidence, head, now), now);
      }
    case ReopenCall(id, reason, authority, next) =>
      if i < |ts| && History(ts[i]).Some? {
        ReopenedKeepsId(ts[i], History(ts[i]).value, reason, authority, next, now);
      }
    case BlockCall(id, blocker) =>
      if i < |ts| && AsList(Get(ts[i], Blockers)).Some? {
        UpdateOnCopy(file, c, id, BlockChanges(AsList(Get(ts[i], Blockers)).value, blocker), now);
      }
  }

  lemma ReopenedKeepsId(t: Task, history: seq<Value>, reason: string, authority: string, next: string, now: nat)
    ensures Get(ReopenedTask(t, history, reason, authority, next, now), TaskId) == Get(t, TaskId)
  {
  }

  /** No call makes an id occur twice. */
  lemma CallKeepsUnique(call: Call, file: Doc, c: Copy, now: nat)
    requires UniqueIds(c.data.tasks) && UniqueIds(file.tasks)
    ensures var o := Perform(call, file, c, now); UniqueIds(o.copy.data.tasks) && UniqueIds(o.file.tasks)
  {
    hide Perform, ValidTask, Get;
    CallOnCopy(call, file, c, now);
  }

  lemma UpdateKeepsTasksValid(file: Doc, c: Copy, id: Value, changes: map<Field, Value>, now: nat)
    requires ValidTasks(c.data.tasks) && TypedChanges(changes)
    ensures forall k :: 0 <= k < |Update(file, c, id, changes, now).copy.data.tasks| ==>
              ValidTask(Update(file, c, id, changes, now).copy.data.tasks[k])
  {
    hide ValidTask, Closed, Updated, Effective, TypedChanges, UniqueIds;
    var i := IndexOf(c.data.tasks, id);
    if i < |c.data.tasks| && (StateField in changes ==> changes[StateField].StateOf?) {
      UpdatedValidIff(c.data.tasks[i], changes, now);
    }
  }

  lemma TypedKeepsTasksValid(call: Call, file: Doc, c: Copy, now: nat)
    requires ValidTasks(c.data.tasks) && Typed(call)
    ensures forall k :: 0 <= k < |Perform(call, file, c, now).copy.data.tasks| ==>
              ValidTask(Perform(call, file, c, now).copy.data.tasks[k])
  {
    hide ValidTask, Closed, Updated, ReopenedTask, Effective, Blank, History, Update, AsList, UniqueIds, Evidence;
    var ts := c.data.tasks;
    var i := IndexOf(ts, if call.CreateCall? then Null else call.id);
    match call
    case CreateCall(t) =>
    case UpdateCall(id, changes) => UpdateKeepsTasksValid(file, c, id, changes, now);
    case CompleteCall(id, evidence, head) =>
      if i < |ts| {
        DoneChangesTyped(ts[i], evidence, head, now);
        UpdateKeepsTasksValid(file, c, id, DoneChanges(ts[i], evidence, head, now), now);
      }
    case ReopenCall(id, reason, authority, next) =>
      if i < |ts| && History(ts[i]).Some? {
        ReopenedIsValid(ts[i], History(ts[i]).value, reason, authority, next, now);
      }
    case BlockCall(id, blocker) =>
      if i < |ts| && AsList(Get(ts[i], Blockers)).Some? {
        UpdateKeepsTasksValid(file, c, id, BlockChanges(AsList(Get(ts[i], Blockers)).value, blocker), now);
      }
  }

  /** A typed call keeps a valid copy valid, and with it the file. */
  lemma TypedKeepsValid(call: Call, file: Doc, c: Copy, now: nat)
    requires ValidTasks(c.data.tasks) && ValidTasks(file.tasks) && Typed(call)
    ensures var o := Perform(call, file, c, now); ValidTasks(o.copy.data.tasks) && ValidTasks(o.file.tasks)
  {
    hide Perform, ValidTask, UniqueIds, Typed;
    TypedKeepsTasksValid(call, file, c, now);
    CallKeepsUnique(call, file, c, now);
    CallOnCopy(call, file, c, now);
  }

  // ----- typed runs always load -----------------------------------------------------------------------

  predicate AllValid(s: System) {
    && ValidTasks(s.file.tasks)
    && (forall c :: c in s.opening ==> ValidTasks(s.opening[c].tasks))
    && (forall c :: c in s.clients ==> ValidTasks(s.clients[c].data.tasks))
  }

  lemma {:induction false} EveryTypedRunIsValid(f: Doc, es: seq<Event>)
    requires ValidTasks(f.tasks) && TypedRun(es)
    ensures AllValid(Run(f, es))
  {
    hide Perform, ValidTasks, Typed;
    if es != [] {
      var prefix, e := es[..|es| - 1], es[|es| - 1];
      EveryTypedRunIsValid(f, prefix);
      var s := Run(f, prefix);
      if e.Invoke? && e.client in s.clients {
        assert TypedEvent(e);
        TypedKeepsValid(e.call, s.file, s.clients[e.client], e.now);
      }
    }
  }

  /** Every reachable file of a typed run can be loaded again, whatever races and clocks do. */
  lemma FileAlwaysLoads(f: Doc, es: seq<Event>)
    requires ValidTasks(f.tasks) && TypedRun(es)
    ensures ValidTasks(Run(f, es).file.tasks)
  {
    EveryTypedRunIsValid(f, es);
  }

  // ----- a client that behaves loses no update, whatever the others do --------------------------------

  /** The client's copy is that of the file, or its digest is that of an older file for good. */
  predicate ClientSound(s: System, c: nat) {
    && (c in s.opening ==> ValidTasks(s.opening[c].tasks))
    && (c in s.clients ==>
          || (s.clients[c] == Copy(s.file, s.file) && ValidTasks(s.file.tasks))
          || s.clients[c].loaded.stamp < s.file.stamp)
  }

  lemma StepKeepsClientSound(s: System, e: Event, c: nat, clock: nat)
    requires Dated(s, clock) && ClientSound(s, c)
    requires (e == ReadDigest(c) ==> Quiet(s, e)) && (e.client == c ==> TypedEvent(e))
    requires e.Invoke? ==> e.now > clock
    ensures ClientSound(Step(s, e), c)
  {
    hide Perform, Typed, ValidTasks;
    if e.Invoke? && e.client in s.clients {
      var copy := s.clients[e.client];
      SavesOrLeaves(e.call, s.file, copy, e.now);
      if e.client == c && copy == Copy(s.file, s.file) && ValidTasks(s.file.tasks) {
        RefusedKeepsCopy(e.call, s.file, copy, e.now);
        TypedKeepsValid(e.call, s.file, copy, e.now);
      }
    }
  }

  lemma {:induction false} EveryRunIsClientSound(f: Doc, es: seq<Event>, c: nat)
    requires Clocked(f, es) && OpensQuietly(f, es, c) && CallsTyped(es, c)
    ensures ClientSound(Run(f, es), c)
  {
    hide Step, TypedEvent, Dated;
    if es != [] {
      EveryRunIsClientSound(f, es[..|es| - 1], c);
      EveryRunIsDated(f, es[..|es| - 1]);
      StepKeepsClientSound(Run(f, es[..|es| - 1]), es[|es| - 1], c, Latest(f, es[..|es| - 1]));
    }
  }

  /**
   * No lost updates: a client whose openings were quiet and whose calls are typed changes the file
   * only as it would on a fresh copy of it, whatever the other clients do.
   */
  lemma NoLostUpdates(f: Doc, es: seq<Event>, e: Event)
    requires Clocked(f, es) && OpensQuietly(f, es, e.client) && CallsTyped(es, e.client)
    requires e.Invoke? && Step(Run(f, es), e).file != Run(f, es).file
    ensures var file := Run(f, es).file;
            Step(Run(f, es), e).file == Perform(e.call, file, Copy(file, file), e.now).file
  {
    hide Perform, ValidTasks;
    EveryRunIsClientSound(f, es, e.client);
    var s := Run(f, es);
    SavesOrLeaves(e.call, s.file, s.clients[e.client], e.now);
  }

  // ----- drift ------------------------------------------------------------------------------------

  /** File stamps never run ahead of the clock, and remembered digests never ahead of the file. */
  predicate Dated(s: System, clock: nat) {
    && s.file.stamp <= clock
    && forall c :: c in s.clients ==> s.clients[c].loaded == s.file || s.clients[c].loaded.stamp < s.file.stamp
  }

  lemma {:induction false} EveryRunIsDated(f: Doc, es: seq<Event>)
    requires Clocked(f, es)
    ensures Dated(Run(f, es), Latest(f, es))
  {
    hide Perform, ValidTasks;
    if es != [] {
      var prefix, e := es[..|es| - 1], es[|es| - 1];
      EveryRunIsDated(f, prefix);
      var s := Run(f, prefix);
      if e.Invoke? && e.client in s.clients {
        SavesOrLeaves(e.call, s.file, s.clients[e.client], e.now);
      }
    }
  }

  predicate Reopens(es: seq<Event>, c: nat) {
    exists i :: 0 <= i < |es| && es[i] == ReadDigest(c)
  }

  /**
   * Drift is final, with no assumption about races or types: once a client's digest is not the
   * file's, no later call of that client changes the file until it is opened anew.
   */
  lemma {:induction false} DriftIsFinal(f: Doc, es: seq<Event>, more: seq<Event>, c: nat)
    requires Clocked(f, es + more) && !Reopens(more, c)
    requires c in Run(f, es).clients && Run(f, es).clients[c].loaded != Run(f, es).file
    ensures c in Run(f, es + more).clients
    ensures Run(f, es + more).clients[c].loaded.stamp < Run(f, es + more).file.stamp
    ensures forall call, now :: Step(Run(f, es + more), Invoke(c, call, now)).file == Run(f, es + more).file
    decreases |more|
  {
    hide Perform, ValidTasks;
    if more == [] {
      assert es + more == es;
      EveryRunIsDated(f, es);
    } else {
      var prefix, e := more[..|more| - 1], more[|more| - 1];
      RunSnoc(f, es, more);
      assert e != ReadDigest(c);
      assert !Reopens(prefix, c);
      DriftIsFinal(f, es, prefix, c);
      EveryRunIsDated(f, es + prefix);
      assert (es + more)[..|es + more| - 1] == es + prefix;
      var s := Run(f, es + prefix);
      if e.Invoke? && e.client in s.clients {
        SavesOrLeaves(e.call, s.file, s.clients[e.client], e.now);
      }
    }
    forall call, now
      ensures Step(Run(f, es + more), Invoke(c, call, now)).file == Run(f, es + more).file
    {
      var s := Run(f, es + more);
      SavesOrLeaves(call, s.file, s.clients[c], now);
    }
  }

  // ----- exactly when a client that holds the current digest is faithful ------------------------------

  /** Every call of this client changes the file as it would on a fresh copy. */
  ghost predicate Faithful(file: Doc, c: Copy) {
    forall call, now :: Perform(call, file, c, now).file == Perform(call, file, Copy(file, file), now).file
  }

  function LongestId(ts: seq<Task>): nat {
    if ts == [] then 0 else
      var rest := LongestId(ts[1..]);
      var id := Get(ts[0], TaskId);
      if id.Text? && |id.text| > rest then |id.text| else rest
  }

  lemma {:induction false} LongerIdIsFresh(ts: seq<Task>, id: string)
    requires |id| > LongestId(ts)
    ensures IndexOf(ts, Text(id)) == |ts|
  {
    if ts != [] {
      LongerIdIsFresh(ts[1..], id);
    }
  }

  function PlainTask(id: string): Task {
    map[
      TaskId := Text(id), ParentIntent := Null, Title := Null, Description := Null, StateField := StateOf(Todo),
      Priority := Null, D3Coordinate := Null, Dependencies := Items([]), Blockers := Items([]),
      CompletionCriteria := Null, D4Evidence := Items([]), LastUpdate := Null, NextAction := Null
    ]
  }

  lemma PlainTaskIsValid(id: string)
    ensures ValidTask(PlainTask(id)) && Get(PlainTask(id), TaskId) == Text(id) && LastUpdate in PlainTask(id)
  {
  }

  /**
   * The exact condition: a client whose digest is the file's loses no update, whatever it calls,
   * if and only if its copy of the tasks is the file's. The two can differ after an opening race.
   */
  lemma FaithfulIff(file: Doc, c: Copy)
    requires c.loaded == file
    ensures Faithful(file, c) <==> c.data.tasks == file.tasks
  {
    hide ValidTask, Closed, Updated, ReopenedTask, DoneChanges, BlockChanges, AsList, Effective, Blank, History, PlainTask;
    if c.data.tasks == file.tasks {
      forall call, now
        ensures Perform(call, file, c, now).file == Perform(call, file, Copy(file, file), now).file
      {
      }
    } else {
      var a, b := LongestId(c.data.tasks), LongestId(file.tasks);
      var id := seq(a + b + 1, i => 'x');
      LongerIdIsFresh(c.data.tasks, id);
      LongerIdIsFresh(file.tasks, id);
      PlainTaskIsValid(id);
      var t := PlainTask(id);
      var one, two := Perform(CreateCall(t), file, c, 0).file, Perform(CreateCall(t), file, Copy(file, file), 0).file;
      assert one.tasks == c.data.tasks + [t] && two.tasks == file.tasks + [t];
      assert one.tasks[..|one.tasks| - 1] == c.data.tasks && two.tasks[..|two.tasks| - 1] == file.tasks;
    }
  }

  lemma RunLast(f: Doc, es: seq<Event>, e: Event)
    ensures Run(f, es + [e]) == Step(Run(f, es), e)
    ensures Clocked(f, es + [e]) <==> Clocked(f, es) && (e.Invoke? ==> e.now > Latest(f, es))
    ensures Latest(f, es + [e]) == if e.Invoke? then e.now else Latest(f, es)
  {
    assert (es + [e])[..|es + [e]| - 1] == es;
  }

  lemma CreatePlain(c: Copy, id: string, now: nat)
    requires IndexOf(c.data.tasks, Text(id)) == |c.data.tasks|
    ensures var d := Doc(c.data.tasks + [PlainTask(id)], now);
            Perform(CreateCall(PlainTask(id)), c.loaded, c, now) == Outcome(d, Copy(d, d), Ok(PlainTask(id)))
  {
    hide PlainTask, ValidTask;
    PlainTaskIsValid(id);
  }

  function RaceEvent(k: nat): Event
    requires k < 6
  {
    match k
    case 0 => ReadData(1)
    case 1 => ReadDigest(1)
    case 2 => ReadData(2)
    case 3 => Invoke(1, CreateCall(PlainTask("a")), 1)
    case 4 => ReadDigest(2)
    case 5 => Invoke(2, CreateCall(PlainTask("b")), 2)
  }

  function RaceEvents(k: nat): (es: seq<Event>)
    requires k <= 6
    ensures |es| == k
  {
    if k == 0 then [] else RaceEvents(k - 1) + [RaceEvent(k - 1)]
  }

  /**
   * An opening race does lose an update. Client 2 reads the data, client 1 saves task "a",
   * client 2 reads the digest and saves task "b": "a" is gone.
   */
  lemma RaceLosesUpdate()
    ensures var f := Doc([], 0);
            && Clocked(f, RaceEvents(6))
            && Run(f, RaceEvents(4)).file.tasks == [PlainTask("a")]
            && Run(f, RaceEvents(6)).file.tasks == [PlainTask("b")]
  {
    hide Perform, PlainTask;
    var f := Doc([], 0);
    RunLast(f, RaceEvents(0), RaceEvent(0));
    RunLast(f, RaceEvents(1), RaceEvent(1));
    RunLast(f, RaceEvents(2), RaceEvent(2));
    assert Run(f, RaceEvents(3)) == System(f, map[2 := f], map[1 := Copy(f, f)]) by {
      assert Run(f, RaceEvents(1)).opening == map[1 := f];
      assert Run(f, RaceEvents(2)).opening == map[] && Run(f, RaceEvents(2)).clients == map[1 := Copy(f, f)];
    }
    CreatePlain(Copy(f, f), "a", 1);
    RunLast(f, RaceEvents(3), RaceEvent(3));
    var g := Doc([PlainTask("a")], 1);
    assert Run(f, RaceEvents(4)).file == g && Run(f, RaceEvents(4)).opening == map[2 := f];
    RunLast(f, RaceEvents(4), RaceEvent(4));
    assert Run(f, RaceEvents(5)).clients[2] == Copy(f, g) && Run(f, RaceEvents(5)).file == g;
    CreatePlain(Copy(f, g), "b", 2);
    RunLast(f, RaceEvents(5), RaceEvent(5));
  }

  // ----- untyped updates --------------------------------------------------------------------------------

  /** An update of an open task that passes the checks made before the copy is edited. */
  predicate ReachesTask(ts: seq<Task>, id: Value, changes: map<Field, Value>) {
    && IndexOf(ts, id) < |ts| && !Closed(ts[IndexOf(ts, id)])
    && (TaskId in changes ==> changes[TaskId] == id)
    && (StateField in changes ==> changes[StateField].StateOf?)
  }

  /**
   * On a valid open task the final validation fails exactly when a list field is given something
   * else than a list; the client's copy then keeps the rejected value.
   */
  lemma RejectedValueStays(file: Doc, c: Copy, id: Value, changes: map<Field, Value>, now: nat)
    requires ValidTasks(c.data.tasks) && ReachesTask(c.data.tasks, id, changes)
    ensures var o := Update(file, c, id, changes, now);
            var i := IndexOf(c.data.tasks, id);
            && (o.reply == Err(InvalidTask) <==> !TypedChanges(changes))
            && (o.reply == Err(InvalidTask) ==>
                  o.file == file && o.copy == Edited(c, c.data.tasks[i := Updated(c.data.tasks[i], changes, now)]))
  {
    hide ValidTask, Closed, Updated, Effective, TypedChanges;
    UpdatedValidIff(c.data.tasks[IndexOf(c.data.tasks, id)], changes, now);
  }

  /** List fields that are given something else than a list. */
  function NonLists(changes: map<Field, Value>): set<Field> {
    set f | f in LIST_FIELDS && f in changes && !changes[f].Items?
  }

  /** List fields to which a call that saves gives a list of its own. */
  function Lists(call: Call): set<Field> {
    match call
    case CreateCall(_) => {}
    case UpdateCall(_, changes) => set f | f in LIST_FIELDS && f in changes && changes[f].Items?
    case _ => {Blockers}
  }

  /** The call is about the task `id` and overwrites every rejected value of it with a list. */
  predicate Repairs(call: Call, id: Value, rejected: set<Field>) {
    !call.CreateCall? && call.id == id && rejected <= Lists(call)
  }

  /** What a call that changes the file makes of the task it is about. */
  predicate EditOf(call: Call, t: Task, u: Task) {
    && ValidTask(u) && Get(u, TaskId) == Get(t, TaskId)
    && forall f :: f in LIST_FIELDS && f !in Lists(call) && !Get(t, f).Items? ==> !Get(u, f).Items?
  }

  lemma UpdateEdits(file: Doc, c: Copy, id: Value, changes: map<Field, Value>, now: nat)
    requires Update(file, c, id, changes, now).file != file
    ensures var ts := c.data.tasks;
            var i := IndexOf(ts, id);
            && i < |ts| && ValidTask(Updated(ts[i], changes, now)) && (TaskId in changes ==> changes[TaskId] == id)
            && Update(file, c, id, changes, now).file.tasks == ts[i := Updated(ts[i], changes, now)]
  {
    hide ValidTask, Closed, Updated, Effective;
  }

  lemma UpdatedIsEdit(call: Call, t: Task, changes: map<Field, Value>, now: nat)
    requires ValidTask(Updated(t, changes, now)) && (TaskId in changes ==> changes[TaskId] == Get(t, TaskId))
    requires forall f :: f in LIST_FIELDS && f in changes && f !in Lists(call) && !Get(t, f).Items? ==> !changes[f].Items?
    ensures EditOf(call, t, Updated(t, changes, now))
  {
    hide ValidTask, Lists;
  }

  /** A call other than a creation that changes the file edits exactly the task it is about. */
  lemma CallEditsOne(call: Call, file: Doc, c: Copy, now: nat)
    requires !call.CreateCall? && Perform(call, file, c, now).file != file
    ensures var ts, ts' := c.data.tasks, Perform(call, file, c, now).file.tasks;
            var i := IndexOf(ts, call.id);
            && i < |ts| == |ts'| && ts' == ts[i := ts'[i]] && EditOf(call, ts[i], ts'[i])
  {
    hide ValidTask, Closed, Updated, ReopenedTask, Effective, Blank, History, Update, EditOf, AsList;
    var ts := c.data.tasks;
    var i := IndexOf(ts, call.id);
    match call
    case UpdateCall(id, changes) =>
      UpdateEdits(file, c, id, changes, now);
      UpdatedIsEdit(call, ts[i], changes, now);
    case CompleteCall(id, evidence, head) =>
      var changes := DoneChanges(ts[i], evidence, head, now);
      UpdateEdits(file, c, id, changes, now);
      UpdatedIsEdit(call, ts[i], changes, now);
    case ReopenCall(id, reason, authority, next) =>
      ReopenedIsEdit(call, ts[i], History(ts[i]).value, now);
    case BlockCall(id, blocker) =>
      var changes := BlockChanges(AsList(Get(ts[i], Blockers)).value, blocker);
      UpdateEdits(file, c, id, changes, now);
      UpdatedIsEdit(call, ts[i], changes, now);
  }

  lemma ReopenedIsEdit(call: Call, t: Task, history: seq<Value>, now: nat)
    requires call.ReopenCall?
    requires ValidTask(ReopenedTask(t, history, call.reason, call.authority, call.next, now))
    ensures EditOf(call, t, ReopenedTask(t, history, call.reason, call.authority, call.next, now))
  {
    hide ValidTask;
  }

  /** Every task of the copy is valid, save the one the call is about. */
  predicate OthersValid(call: Call, ts: seq<Task>) {
    forall k :: 0 <= k < |ts| ==> ValidTask(ts[k]) || (!call.CreateCall? && k == IndexOf(ts, call.id))
  }

  /**
   * Exactly when a save leaves the file loadable, for any copy however it came about: every task
   * of the copy but the one the call is about must be valid.
   */
  lemma SaveLoadsIff(call: Call, file: Doc, c: Copy, now: nat)
    requires UniqueIds(c.data.tasks) && UniqueIds(file.tasks) && Perform(call, file, c, now).file != file
    ensures ValidTasks(Perform(call, file, c, now).file.tasks) <==> OthersValid(call, c.data.tasks)
  {
    hide ValidTask, UniqueIds, Perform;
    CallKeepsUnique(call, file, c, now);
    var ts, ts' := c.data.tasks, Perform(call, file, c, now).file.tasks;
    if call.CreateCall? {
      CreateAppends(call, file, c, now);
      assert forall k :: 0 <= k < |ts| ==> ts'[k] == ts[k];
    } else {
      CallEditsOne(call, file, c, now);
      var i := IndexOf(ts, call.id);
      assert ValidTask(ts'[i]) && forall k :: 0 <= k < |ts| && k != i ==> ts'[k] == ts[k];
    }
  }

  lemma CreateAppends(call: Call, file: Doc, c: Copy, now: nat)
    requires call.CreateCall? && Perform(call, file, c, now).file != file
    ensures var ts, ts' := c.data.tasks, Perform(call, file, c, now).file.tasks;
            |ts'| == |ts| + 1 && ts' == ts + [ts'[|ts|]] && ValidTask(ts'[|ts|])
  {
    hide ValidTask;
  }

  predicate AllUnique(s: System) {
    && UniqueIds(s.file.tasks)
    && (forall c :: c in s.opening ==> UniqueIds(s.opening[c].tasks))
    && (forall c :: c in s.clients ==> UniqueIds(s.clients[c].data.tasks))
  }

  lemma {:induction false} EveryRunIsUnique(f: Doc, es: seq<Event>)
    requires UniqueIds(f.tasks)
    ensures AllUnique(Run(f, es))
  {
    hide Perform, ValidTasks, UniqueIds;
    if es != [] {
      var prefix, e := es[..|es| - 1], es[|es| - 1];
      EveryRunIsUnique(f, prefix);
      var s := Run(f, prefix);
      if e.Invoke? && e.client in s.clients {
        CallKeepsUnique(e.call, s.file, s.clients[e.client], e.now);
      }
    }
  }

  /** Over whole runs, with races and untyped calls of any number: exactly when a call leaves a loadable file. */
  lemma RunLoadsIff(f: Doc, es: seq<Event>, e: Event)
    requires UniqueIds(f.tasks) && e.Invoke? && Step(Run(f, es), e).file != Run(f, es).file
    ensures e.client in Run(f, es).clients
    ensures ValidTasks(Step(Run(f, es), e).file.tasks) <==> OthersValid(e.call, Run(f, es).clients[e.client].data.tasks)
  {
    hide Perform, ValidTasks, UniqueIds, OthersValid;
    EveryRunIsUnique(f, es);
    SaveLoadsIff(e.call, Run(f, es).file, Run(f, es).clients[e.client], e.now);
  }

  /**
   * What one rejected value does. On an up-to-date copy one update is rejected; if the next call
   * of that client changes the file, it leaves it loadable if and only if the call itself is about
   * the same task and gives a list to every list field the rejected update spoiled. Any other
   * call that gets through writes the rejected value out.
   */
  lemma RejectedValueIsPersisted(file: Doc, id: Value, changes: map<Field, Value>, now: nat, call: Call, later: nat)
    requires ValidTasks(file.tasks) && ReachesTask(file.tasks, id, changes) && !TypedChanges(changes)
    ensures var o := Update(file, Copy(file, file), id, changes, now);
            var o' := Perform(call, o.file, o.copy, later);
            && o.reply == Err(InvalidTask) && o.file == file
            && (o'.file != file ==> (ValidTasks(o'.file.tasks) <==> Repairs(call, id, NonLists(changes))))
  {
    hide ValidTask, Closed, Updated, TypedChanges, Perform, NonLists, Lists, EditOf;
    var i := IndexOf(file.tasks, id);
    RejectedValueStays(file, Copy(file, file), id, changes, now);
    Spoiled(file.tasks[i], changes, now);
    var dirty := Edited(Copy(file, file), file.tasks[i := Updated(file.tasks[i], changes, now)]);
    if Perform(call, file, dirty, later).file != file {
      AfterSpoiled(file, dirty, i, NonLists(changes), call, later);
    }
  }

  /** The slot a rejected update leaves: its list fields are spoiled exactly where the update spoiled them. */
  lemma Spoiled(t: Task, changes: map<Field, Value>, now: nat)
    requires ValidTask(t) && !TypedChanges(changes) && (TaskId in changes ==> changes[TaskId] == Get(t, TaskId))
    requires StateField in changes ==> changes[StateField].StateOf?
    ensures var u := Updated(t, changes, now);
            && !ValidTask(u) && Get(u, TaskId) == Get(t, TaskId)
            && forall f :: f in NonLists(changes) <==> f in LIST_FIELDS && !Get(u, f).Items?
  {
    UpdatedValidIff(t, changes, now);
  }

  lemma AfterSpoiled(file: Doc, c: Copy, i: nat, rejected: set<Field>, call: Call, later: nat)
    requires i < |file.tasks| == |c.data.tasks| && c.data.tasks == file.tasks[i := c.data.tasks[i]]
    requires ValidTasks(file.tasks) && !ValidTask(c.data.tasks[i])
    requires Get(c.data.tasks[i], TaskId) == Get(file.tasks[i], TaskId)
    requires forall f :: f in rejected <==> f in LIST_FIELDS && !Get(c.data.tasks[i], f).Items?
    requires Perform(call, file, c, later).file != file
    ensures ValidTasks(Perform(call, file, c, later).file.tasks) <==> Repairs(call, Get(file.tasks[i], TaskId), rejected)
  {
    hide ValidTask, Lists, Perform, Get, ValidTasks;
    SameIdsUnique(file.tasks, i, c.data.tasks[i]);
    SaveLoadsIff(call, file, c, later);
    if !call.CreateCall? {
      CallEditsOne(call, file, c, later);
      OnlySpoiled(file.tasks, i, c.data.tasks[i], call);
      if IndexOf(c.data.tasks, call.id) == i {
        ListsOfValid(Perform(call, file, c, later).file.tasks[i]);
      }
    } else {
      assert !ValidTask(c.data.tasks[i]);
    }
  }

  lemma SameIdsUnique(ts: seq<Task>, i: nat, t: Task)
    requires i < |ts| && ValidTasks(ts) && Get(t, TaskId) == Get(ts[i], TaskId)
    ensures UniqueIds(ts) && UniqueIds(ts[i := t])
  {
    hide ValidTask, Get;
  }

  lemma OnlySpoiled(ts: seq<Task>, i: nat, t: Task, call: Call)
    requires i < |ts| && ValidTasks(ts) && !ValidTask(t) && Get(t, TaskId) == Get(ts[i], TaskId) && !call.CreateCall?
    ensures OthersValid(call, ts[i := t]) <==> call.id == Get(ts[i], TaskId)
    ensures IndexOf(ts[i := t], call.id) == i <==> call.id == Get(ts[i], TaskId)
  {
    hide ValidTask, Get;
    var ts' := ts[i := t];
    IndexAfterEdit(ts, i, t, call.id);
    assert forall k :: 0 <= k < |ts| && k != i ==> ts'[k] == ts[k];
    assert !ValidTask(ts'[i]);
    assert call.id == Get(ts[i], TaskId) ==> IndexOf(ts, call.id) == i;
  }

  lemma ListsOfValid(t: Task)
    requires ValidTask(t)
    ensures forall f :: f in LIST_FIELDS ==> Get(t, f).Items?
  {
  }

  /** An update of the spoiled task gets through exactly if it is typed and covers every spoiled field. */
  lemma RepairGetsThroughIff(file: Doc, id: Value, changes: map<Field, Value>, now: nat, repair: map<Field, Value>, later: nat)
    requires ValidTasks(file.tasks) && ReachesTask(file.tasks, id, changes) && !TypedChanges(changes)
    requires var o := Update(file, Copy(file, file), id, changes, now); ReachesTask(o.copy.data.tasks, id, repair)
    ensures var o := Update(file, Copy(file, file), id, changes, now);
            Update(o.file, o.copy, id, repair, later).reply.Ok? <==> TypedChanges(repair) && NonLists(changes) <= repair.Keys
  {
    hide ValidTask, Closed, Updated, TypedChanges, NonLists;
    var i := IndexOf(file.tasks, id);
    RejectedValueStays(file, Copy(file, file), id, changes, now);
    Spoiled(file.tasks[i], changes, now);
    RepairedIff(file.tasks[i], changes, now, repair, later);
  }

  lemma RepairedIff(t: Task, changes: map<Field, Value>, now: nat, repair: map<Field, Value>, later: nat)
    requires ValidTask(t) && (StateField in changes ==> changes[StateField].StateOf?)
    requires StateField in repair ==> repair[StateField].StateOf?
    ensures ValidTask(Updated(Updated(t, changes, now), repair, later)) <==>
              TypedChanges(repair) && NonLists(changes) <= repair.Keys
  {
    var u := Updated(Updated(t, changes, now), repair, later);
    assert u.Keys == t.Keys + changes.Keys + repair.Keys + {LastUpdate};
    assert Dependencies in LIST_FIELDS && Blockers in LIST_FIELDS && D4Evidence in LIST_FIELDS;
  }

  /** Creating another task gets through, so it does write the rejected value out. */
  lemma CreationPersistsRejectedValue(file: Doc, id: Value, changes: map<Field, Value>, now: nat, other: string, later: nat)
    requires ValidTasks(file.tasks) && ReachesTask(file.tasks, id, changes) && !TypedChanges(changes)
    requires IndexOf(file.tasks, Text(other)) == |file.tasks|
    ensures var o := Update(file, Copy(file, file), id, changes, now);
            var o' := Perform(CreateCall(PlainTask(other)), o.file, o.copy, later);
            o'.reply.Ok? && !ValidTasks(o'.file.tasks)
  {
    hide ValidTask, Closed, Updated, TypedChanges, PlainTask, Perform;
    var c := Copy(file, file);
    var i := IndexOf(file.tasks, id);
    RejectedValueStays(file, c, id, changes, now);
    Spoiled(file.tasks[i], changes, now);
    var o := Update(file, c, id, changes, now);
    var dirty := o.copy.data.tasks;
    IndexAfterEdit(file.tasks, i, dirty[i], Text(other));
    CreatePlain(o.copy, other, later);
    var o' := Perform(CreateCall(PlainTask(other)), o.file, o.copy, later);
    assert o'.file.tasks[i] == dirty[i];
  }

  const NO_LIST: map<Field, Value> := map[Blockers := Null]
  const EMPTY_LIST: map<Field, Value> := map[Blockers := Items([])]

  predicate OpenTask(ts: seq<Task>, id: Value) {
    IndexOf(ts, id) < |ts| && !Closed(ts[IndexOf(ts, id)]) && ValidTask(ts[IndexOf(ts, id)])
  }

  lemma SpoilOne(file: Doc, c: Copy, id: Value, now: nat)
    requires OpenTask(c.data.tasks, id)
    ensures var ts := c.data.tasks;
            var i := IndexOf(ts, id);
            var u := Updated(ts[i], NO_LIST, now);
            && Update(file, c, id, NO_LIST, now) == Outcome(file, Edited(c, ts[i := u]), Err(InvalidTask))
            && !ValidTask(u) && !Closed(u) && Get(u, TaskId) == id
  {
  }

  lemma MendOne(file: Doc, c: Copy, id: Value, t: Task, was: nat, now: nat)
    requires file == c.loaded && IndexOf(c.data.tasks, id) < |c.data.tasks|
    requires c.data.tasks[IndexOf(c.data.tasks, id)] == Updated(t, NO_LIST, was) && ValidTask(t) && !Closed(t)
    ensures var o := Update(file, c, id, EMPTY_LIST, now);
            var i := IndexOf(c.data.tasks, id);
            o.reply.Ok? && o.file == Doc(c.data.tasks[i := Updated(c.data.tasks[i], EMPTY_LIST, now)], now)
  {
    hide IndexOf;
  }

  lemma MendIsRepair(id: Value)
    ensures Repairs(UpdateCall(id, EMPTY_LIST), id, NonLists(NO_LIST))
  {
    assert Blockers in LIST_FIELDS && EMPTY_LIST[Blockers].Items?;
  }

  /**
   * Two spoiled tasks: mending one of them gets through and writes out the other. So the repair
   * that suffices after one rejected update does not after two.
   */
  lemma TwoSpoiledTasks(file: Doc, id: Value, other: Value, now: nat)
    requires ValidTasks(file.tasks) && OpenTask(file.tasks, id) && OpenTask(file.tasks, other) && id != other
    ensures var one := Update(file, Copy(file, file), id, NO_LIST, now);
            var two := Update(one.file, one.copy, other, NO_LIST, now);
            var three := Update(two.file, two.copy, id, EMPTY_LIST, now);
            && one.reply == two.reply == Err(InvalidTask)
            && Repairs(UpdateCall(id, EMPTY_LIST), id, NonLists(NO_LIST))
            && three.reply.Ok? && !ValidTasks(three.file.tasks)
  {
    hide Update, ValidTask, Closed, Updated, Get, Repairs, NonLists;
    var ts := file.tasks;
    var i, j := IndexOf(ts, id), IndexOf(ts, other);
    SpoilOne(file, Copy(file, file), id, now);
    var u := Updated(ts[i], NO_LIST, now);
    var one := Edited(Copy(file, file), ts[i := u]);
    IndexAfterEdit(ts, i, u, other);
    SpoilOne(file, one, other, now);
    var v := Updated(ts[j], NO_LIST, now);
    var two := Edited(one, ts[i := u][j := v]);
    assert Update(file, Copy(file, file), id, NO_LIST, now) == Outcome(file, one, Err(InvalidTask));
    assert Update(file, one, other, NO_LIST, now) == Outcome(file, two, Err(InvalidTask));
    IndexAfterEdit(ts, i, u, id);
    IndexAfterEdit(ts[i := u], j, v, id);
    MendOne(file, two, id, ts[i], now, now);
    MendIsRepair(id);
    var three := Update(file, two, id, EMPTY_LIST, now);
    assert three.file.tasks[j] == v && !ValidTask(three.file.tasks[j]);
    assert three.reply.Ok? && !ValidTasks(three.file.tasks);
  }

  // ----- closed tasks ----------------------------------------------------------------------------------------

  /** What a reopening turns `t` into: an unsealed TODO with one more history entry, nothing else touched. */
  ghost predicate ReopeningOf(call: Call, t: Task, u: Task, now: nat) {
    && call.ReopenCall? && call.id == Get(t, TaskId) && InState(t, Done)
    && !Blank(call.reason) && !Blank(call.authority) && !Blank(call.next) && call.next != "NONE"
    && InState(u, Todo) && !Closed(u) && Get(u, NextAction) == Text(call.next) && Get(u, Blockers) == Items([])
    && History(t).Some? && History(u).Some?
    && History(u).value == History(t).value + [Reopened(now, call.reason, call.authority, PreviousSeal(t))]
    && forall f :: f !in {StateField, NextAction, Blockers, ReopenHistory, LastUpdate, CompletionSeal, ClosedAt, ClosedHead} ==>
         Get(u, f) == Get(t, f)
  }

  lemma ReopenedIsReopening(call: Call, t: Task, now: nat)
    requires call.ReopenCall? && call.id == Get(t, TaskId) && InState(t, Done) && History(t).Some?
    requires !Blank(call.reason) && !Blank(call.authority) && !Blank(call.next) && call.next != "NONE"
    ensures ReopeningOf(call, t, ReopenedTask(t, History(t).value, call.reason, call.authority, call.next, now), now)
  {
  }

  /** On a faithful copy, a call that changes a closed task is a legitimate reopening of it. */
  lemma ClosedTaskChange(call: Call, file: Doc, now: nat, i: nat)
    requires i < |file.tasks| && Closed(file.tasks[i])
    ensures var after := Perform(call, file, Copy(file, file), now).file.tasks;
            && i < |after|
            && (after[i] != file.tasks[i] ==> ReopeningOf(call, file.tasks[i], after[i], now))
  {
    hide ValidTask, Closed, Updated, ReopenedTask, DoneChanges, BlockChanges, AsList, Effective, Blank, History, ReopeningOf;
    if call.ReopenCall? {
      var k := IndexOf(file.tasks, call.id);
      if k == i && InState(file.tasks[i], Done) && History(file.tasks[i]).Some?
         && !Blank(call.reason) && !Blank(call.authority) && !Blank(call.next) && call.next != "NONE" {
        ReopenedIsReopening(call, file.tasks[i], now);
      }
    }
  }

  /**
   * Over whole runs: a task that is DONE or sealed stays in its place and changes in no step but
   * a reopening of a DONE task with reason, authority and next action given, which records the
   * previous seal. A sealed task that is not DONE never changes at all. Only the client that acts
   * must have opened quietly and called typed.
   */
  lemma ClosedChangesOnlyByReopening(f: Doc, es: seq<Event>, e: Event, i: nat)
    requires Clocked(f, es) && (e.Invoke? ==> OpensQuietly(f, es, e.client) && CallsTyped(es, e.client))
    requires i < |Run(f, es).file.tasks| && Closed(Run(f, es).file.tasks[i])
    ensures var before, after := Run(f, es).file.tasks, Step(Run(f, es), e).file.tasks;
            && i < |after|
            && (after[i] != before[i] ==> e.Invoke? && ReopeningOf(e.call, before[i], after[i], e.now))
            && (!InState(before[i], Done) ==> after[i] == before[i])
  {
    hide Perform, ValidTasks, Closed, InState, OpensQuietly, CallsTyped, Clocked, Run;
    var s := Run(f, es);
    if e.Invoke? && Step(s, e).file != s.file {
      NoLostUpdates(f, es, e);
      ClosedTaskChange(e.call, s.file, e.now, i);
    }
  }
}
